/**
 * The Hill cipher (`src/cipher/polygraph/hill.rs`): the code points of the
 * message's letters, padded with zeros (`A`) to whole blocks of the key's
 * dimension, are multiplied block by block by the key matrix modulo the
 * alphabet length. Decryption does the same with the inverse matrix.
 *
 * The result keeps the message's layout: its letters take the new code
 * points in their own case, other characters stay, and the code points
 * left over after the last letter follow as uppercase letters.
 */
module Hill {
  import opened Permutations
  import opened Arith
  import opened LangAlphabets
  import opened Languages
  import opened Letterwise
  import opened Matrices

  /* ------------------------------------------------------------------ */
  /*                      blocks and their products                     */
  /* ------------------------------------------------------------------ */

  /** Row `j` of `m` times the block at the front of `s`. */
  function RowTimesBlock(m: seq<seq<int>>, n: int, s: seq<int>, j: int): int
    requires Supported(m, n) && 0 <= j < n && n <= |s|
  {
    if n == 2 then m[j][0] * s[0] + m[j][1] * s[1]
    else m[j][0] * s[0] + m[j][1] * s[1] + m[j][2] * s[2]
  }

  /** The block at the front of `s` multiplied by `m`, each entry reduced by `modulo(_, q)`. */
  function Block(m: seq<seq<int>>, n: int, s: seq<int>, q: int): (r: seq<int>)
    requires Supported(m, n) && n <= |s| && q != 0
    ensures |r| == n
  {
    seq(n, j requires 0 <= j < n => Modulo(RowTimesBlock(m, n, s, j), q))
  }

  /** `len - len mod n`: the positions that lie in whole blocks of length `n`. */
  function Covered(len: int, n: int): (r: int)
    ensures len >= 0 ==> 0 <= r <= len
    decreases len
  {
    if n <= 0 || len < n then 0 else n + Covered(len - n, n)
  }

  /**
   * The code points `run_array` writes: each whole block of `src`
   * multiplied by `m`, in order; a shorter tail gets nothing. The modulus
   * is only used when there is a block.
   */
  function Mixed(m: seq<seq<int>>, n: int, src: seq<int>, q: int): (r: seq<int>)
    requires Supported(m, n) && (|src| < n || q != 0)
    ensures |r| == Covered(|src|, n)
    ensures q > 0 ==> InRange(r, q)
    decreases |src|
  {
    if |src| < n then [] else Block(m, n, src, q) + Mixed(m, n, src[n..], q)
  }

  /** For the key's two dimensions `Covered` is the usual remainder arithmetic. */
  lemma {:induction false} CoveredClosed(len: int, n: int)
    requires (n == 2 || n == 3) && len >= 0
    ensures Covered(len, n) == if n == 2 then len / 2 * 2 else len / 3 * 3
    decreases len
  {
    if len >= n {
      CoveredClosed(len - n, n);
    }
  }

  /** Whole-block lengths are covered completely. */
  lemma CoveredAligned(len: int, n: int)
    requires (n == 2 || n == 3) && len >= 0 && len % n == 0
    ensures Covered(len, n) == len
  {
    CoveredClosed(len, n);
  }

  /* ------------------------------------------------------------------ */
  /*                              padding                               */
  /* ------------------------------------------------------------------ */

  /** `modulo(multiple - len, multiple)` zeros bring `len` up to a multiple of `multiple`. */
  lemma PadLength(len: int, multiple: int)
    requires multiple > 0
    ensures 0 <= (multiple - len) % multiple < multiple
    ensures (len + (multiple - len) % multiple) % multiple == 0
  {
    var e, k := (multiple - len) % multiple, (multiple - len) / multiple;
    assert multiple - len == multiple * k + e;
    assert len + e == multiple * (1 - k) + 0;
    DivModUnique(len + e, multiple, 1 - k, 0);
  }

  /** A length that is already a multiple needs no zeros. */
  lemma PadNothing(len: int, multiple: int)
    requires multiple > 0 && len % multiple == 0
    ensures (multiple - len) % multiple == 0
  {
    var k := len / multiple;
    assert len == multiple * k;
    assert multiple - len == multiple * (1 - k) + 0;
    DivModUnique(multiple - len, multiple, 1 - k, 0);
  }

  /**
   * `pad_txt`: a non-empty text gets the fewest zeros that make its length
   * a multiple of `multiple`; the empty text stays empty.
   */
  function Padded(txt: seq<int>, multiple: int): (r: seq<int>)
    requires multiple > 0
    ensures txt == [] ==> r == []
    ensures txt != [] ==> |txt| <= |r| < |txt| + multiple && |r| % multiple == 0
    ensures |txt| <= |r| && r[..|txt|] == txt && forall p :: |txt| <= p < |r| ==> r[p] == 0
  {
    if txt == [] then []
    else
      PadLength(|txt|, multiple);
      txt + seq(Modulo(multiple - |txt|, multiple), _ => 0)
  }

  /** Padding a text of whole blocks changes nothing. */
  lemma PaddedAligned(txt: seq<int>, multiple: int)
    requires multiple > 0 && |txt| % multiple == 0
    ensures Padded(txt, multiple) == txt
  {
    PadNothing(|txt|, multiple);
  }

  /* ------------------------------------------------------------------ */
  /*                the inverse matrix undoes the product               */
  /* ------------------------------------------------------------------ */

  /** How a row of `inv` times a block of `m * s` regroups as `(inv * m)` times `s`. */
  lemma Regroup3(i0: int, i1: int, i2: int, m00: int, m01: int, m02: int, m10: int, m11: int, m12: int,
                 m20: int, m21: int, m22: int, s0: int, s1: int, s2: int)
    ensures i0 * (m00 * s0 + m01 * s1 + m02 * s2) + i1 * (m10 * s0 + m11 * s1 + m12 * s2) + i2 * (m20 * s0 + m21 * s1 + m22 * s2)
         == (i0 * m00 + i1 * m10 + i2 * m20) * s0 + (i0 * m01 + i1 * m11 + i2 * m21) * s1 + (i0 * m02 + i1 * m12 + i2 * m22) * s2
  {
  }

  lemma Regroup2(i0: int, i1: int, m00: int, m01: int, m10: int, m11: int, s0: int, s1: int)
    ensures i0 * (m00 * s0 + m01 * s1) + i1 * (m10 * s0 + m11 * s1) == (i0 * m00 + i1 * m10) * s0 + (i0 * m01 + i1 * m11) * s1
  {
  }

  /**
   * Residues of the block sums `e0`, `e1`, `e2` weighted by `i0`, `i1`,
   * `i2` sum like the sums themselves modulo 26.
   */
  lemma ResidueSum3(c0: int, c1: int, c2: int, e0: int, e1: int, e2: int, i0: int, i1: int, i2: int)
    requires c0 == e0 % Modulus && c1 == e1 % Modulus && c2 == e2 % Modulus
    ensures (i0 * c0 + i1 * c1 + i2 * c2) % Modulus == (i0 * e0 + i1 * e1 + i2 * e2) % Modulus
  {
    ModMod(e0);
    ModMod(e1);
    ModMod(e2);
    MulCongruent(c0, e0, i0);
    MulCongruent(c1, e1, i1);
    MulCongruent(c2, e2, i2);
    AddCongruent(c0 * i0, c1 * i1, e0 * i0, e1 * i1);
    AddCongruent(c0 * i0 + c1 * i1, c2 * i2, e0 * i0 + e1 * i1, e2 * i2);
  }

  lemma ResidueSum2(c0: int, c1: int, e0: int, e1: int, i0: int, i1: int)
    requires c0 == e0 % Modulus && c1 == e1 % Modulus
    ensures (i0 * c0 + i1 * c1) % Modulus == (i0 * e0 + i1 * e1) % Modulus
  {
    ModMod(e0);
    ModMod(e1);
    MulCongruent(c0, e0, i0);
    MulCongruent(c1, e1, i1);
    AddCongruent(c0 * i0, c1 * i1, e0 * i0, e1 * i1);
  }

  /** Weights congruent to row `j` of the identity pick out `s_j` modulo 26. */
  lemma Select3(d0: int, d1: int, d2: int, s0: int, s1: int, s2: int, j: int)
    requires 0 <= j < 3
    requires d0 % Modulus == (if j == 0 then 1 else 0) && d1 % Modulus == (if j == 1 then 1 else 0) && d2 % Modulus == (if j == 2 then 1 else 0)
    ensures (d0 * s0 + d1 * s1 + d2 * s2) % Modulus == (if j == 0 then s0 else if j == 1 then s1 else s2) % Modulus
  {
    var u0, u1, u2 := (if j == 0 then 1 else 0), (if j == 1 then 1 else 0), (if j == 2 then 1 else 0);
    MulCongruent(d0, u0, s0);
    MulCongruent(d1, u1, s1);
    MulCongruent(d2, u2, s2);
    AddCongruent(d0 * s0, d1 * s1, u0 * s0, u1 * s1);
    AddCongruent(d0 * s0 + d1 * s1, d2 * s2, u0 * s0 + u1 * s1, u2 * s2);
  }

  lemma Select2(d0: int, d1: int, s0: int, s1: int, j: int)
    requires 0 <= j < 2
    requires d0 % Modulus == (if j == 0 then 1 else 0) && d1 % Modulus == (if j == 1 then 1 else 0)
    ensures (d0 * s0 + d1 * s1) % Modulus == (if j == 0 then s0 else s1) % Modulus
  {
    var u0, u1 := (if j == 0 then 1 else 0), (if j == 1 then 1 else 0);
    MulCongruent(d0, u0, s0);
    MulCongruent(d1, u1, s1);
    AddCongruent(d0 * s0, d1 * s1, u0 * s0, u1 * s1);
  }

  /** `c` holds the residues of the block of `s` multiplied by `m`. */
  predicate BlockResidues(m: seq<seq<int>>, n: int, s: seq<int>, c: seq<int>)
    requires Supported(m, n) && n <= |s| && n <= |c|
  {
    forall k :: 0 <= k < n ==> c[k] == RowTimesBlock(m, n, s, k) % Modulus
  }

  /**
   * Row `(i0, i1, i2)` of a left inverse, applied to the residues `c0`,
   * `c1`, `c2` of the block `(s0, s1, s2)` multiplied by the rows of `m`,
   * gives back `s_j` modulo 26.
   */
  lemma Undo3(i0: int, i1: int, i2: int, m00: int, m01: int, m02: int, m10: int, m11: int, m12: int,
              m20: int, m21: int, m22: int, s0: int, s1: int, s2: int, c0: int, c1: int, c2: int, j: int)
    requires 0 <= j < 3
    requires c0 == (m00 * s0 + m01 * s1 + m02 * s2) % Modulus
    requires c1 == (m10 * s0 + m11 * s1 + m12 * s2) % Modulus
    requires c2 == (m20 * s0 + m21 * s1 + m22 * s2) % Modulus
    requires (i0 * m00 + i1 * m10 + i2 * m20) % Modulus == (if j == 0 then 1 else 0)
    requires (i0 * m01 + i1 * m11 + i2 * m21) % Modulus == (if j == 1 then 1 else 0)
    requires (i0 * m02 + i1 * m12 + i2 * m22) % Modulus == (if j == 2 then 1 else 0)
    ensures (i0 * c0 + i1 * c1 + i2 * c2) % Modulus == (if j == 0 then s0 else if j == 1 then s1 else s2) % Modulus
  {
    var e0, e1, e2 := m00 * s0 + m01 * s1 + m02 * s2, m10 * s0 + m11 * s1 + m12 * s2, m20 * s0 + m21 * s1 + m22 * s2;
    var d0, d1, d2 := i0 * m00 + i1 * m10 + i2 * m20, i0 * m01 + i1 * m11 + i2 * m21, i0 * m02 + i1 * m12 + i2 * m22;
    ResidueSum3(c0, c1, c2, e0, e1, e2, i0, i1, i2);
    Regroup3(i0, i1, i2, m00, m01, m02, m10, m11, m12, m20, m21, m22, s0, s1, s2);
    Select3(d0, d1, d2, s0, s1, s2, j);
    assert i0 * e0 + i1 * e1 + i2 * e2 == d0 * s0 + d1 * s1 + d2 * s2;
  }

  lemma Undo2(i0: int, i1: int, m00: int, m01: int, m10: int, m11: int, s0: int, s1: int, c0: int, c1: int, j: int)
    requires 0 <= j < 2
    requires c0 == (m00 * s0 + m01 * s1) % Modulus && c1 == (m10 * s0 + m11 * s1) % Modulus
    requires (i0 * m00 + i1 * m10) % Modulus == (if j == 0 then 1 else 0)
    requires (i0 * m01 + i1 * m11) % Modulus == (if j == 1 then 1 else 0)
    ensures (i0 * c0 + i1 * c1) % Modulus == (if j == 0 then s0 else s1) % Modulus
  {
    var e0, e1 := m00 * s0 + m01 * s1, m10 * s0 + m11 * s1;
    var d0, d1 := i0 * m00 + i1 * m10, i0 * m01 + i1 * m11;
    ResidueSum2(c0, c1, e0, e1, i0, i1);
    Regroup2(i0, i1, m00, m01, m10, m11, s0, s1);
    Select2(d0, d1, s0, s1, j);
    assert i0 * e0 + i1 * e1 == d0 * s0 + d1 * s1;
  }

  lemma BlockUndone3(inv: seq<seq<int>>, m: seq<seq<int>>, s: seq<int>, c: seq<int>, j: int)
    requires Supported(inv, 3) && Supported(m, 3) && InverseMod(inv, m, 3)
    requires 3 <= |s| && 3 <= |c| && 0 <= j < 3 && BlockResidues(m, 3, s, c)
    ensures RowTimesBlock(inv, 3, c, j) % Modulus == s[j] % Modulus
  {
    assert c[0] == RowTimesBlock(m, 3, s, 0) % Modulus && c[1] == RowTimesBlock(m, 3, s, 1) % Modulus && c[2] == RowTimesBlock(m, 3, s, 2) % Modulus;
    assert Dot(inv, m, 3, j, 0) % Modulus == (if j == 0 then 1 else 0);
    assert Dot(inv, m, 3, j, 1) % Modulus == (if j == 1 then 1 else 0);
    assert Dot(inv, m, 3, j, 2) % Modulus == (if j == 2 then 1 else 0);
    Undo3(inv[j][0], inv[j][1], inv[j][2], m[0][0], m[0][1], m[0][2], m[1][0], m[1][1], m[1][2],
          m[2][0], m[2][1], m[2][2], s[0], s[1], s[2], c[0], c[1], c[2], j);
  }

  lemma BlockUndone2(inv: seq<seq<int>>, m: seq<seq<int>>, s: seq<int>, c: seq<int>, j: int)
    requires Supported(inv, 2) && Supported(m, 2) && InverseMod(inv, m, 2)
    requires 2 <= |s| && 2 <= |c| && 0 <= j < 2 && BlockResidues(m, 2, s, c)
    ensures RowTimesBlock(inv, 2, c, j) % Modulus == s[j] % Modulus
  {
    assert c[0] == RowTimesBlock(m, 2, s, 0) % Modulus && c[1] == RowTimesBlock(m, 2, s, 1) % Modulus;
    assert Dot(inv, m, 2, j, 0) % Modulus == (if j == 0 then 1 else 0);
    assert Dot(inv, m, 2, j, 1) % Modulus == (if j == 1 then 1 else 0);
    Undo2(inv[j][0], inv[j][1], m[0][0], m[0][1], m[1][0], m[1][1], s[0], s[1], c[0], c[1], j);
  }

  /** The product of a block, taken modulo 26, holds the residues. */
  lemma BlockHasResidues(m: seq<seq<int>>, n: int, s: seq<int>, c: seq<int>)
    requires Supported(m, n) && n <= |s| && n <= |c| && c[..n] == Block(m, n, s, Modulus)
    ensures BlockResidues(m, n, s, c)
  {
    forall k | 0 <= k < n ensures c[k] == RowTimesBlock(m, n, s, k) % Modulus {
      assert c[k] == c[..n][k];
    }
  }

  /** One entry of a block multiplied by a left inverse of `m` after `m` is the block's own code point. */
  lemma BlockEntryUndone(m: seq<seq<int>>, inv: seq<seq<int>>, n: int, s: seq<int>, c: seq<int>, j: int)
    requires Supported(m, n) && Supported(inv, n) && InverseMod(inv, m, n)
    requires n <= |s| && n <= |c| && InRange(s, Modulus) && BlockResidues(m, n, s, c) && 0 <= j < n
    ensures RowTimesBlock(inv, n, c, j) % Modulus == s[j]
  {
    if n == 2 {
      BlockUndone2(inv, m, s, c, j);
    } else {
      BlockUndone3(inv, m, s, c, j);
    }
  }

  /** A block multiplied by `m` and then by a left inverse of `m` comes back. */
  lemma BlockUndone(m: seq<seq<int>>, inv: seq<seq<int>>, n: int, s: seq<int>, c: seq<int>)
    requires Supported(m, n) && Supported(inv, n) && InverseMod(inv, m, n)
    requires n <= |s| && n <= |c| && InRange(s, Modulus) && c[..n] == Block(m, n, s, Modulus)
    ensures Block(inv, n, c, Modulus) == s[..n]
  {
    BlockHasResidues(m, n, s, c);
    forall j | 0 <= j < n ensures Block(inv, n, c, Modulus)[j] == s[j] {
      BlockEntryUndone(m, inv, n, s, c, j);
    }
  }

  /** The inverse's product with the product of `m` starts with the first block of `src`. */
  lemma FirstBlockUndone(m: seq<seq<int>>, inv: seq<seq<int>>, n: int, src: seq<int>)
    requires Supported(m, n) && Supported(inv, n) && InverseMod(inv, m, n)
    requires n <= |src| && InRange(src, Modulus)
    ensures Mixed(inv, n, Mixed(m, n, src, Modulus), Modulus)
         == src[..n] + Mixed(inv, n, Mixed(m, n, src[n..], Modulus), Modulus)
  {
    var block, rest := Block(m, n, src, Modulus), Mixed(m, n, src[n..], Modulus);
    var c := block + rest;
    assert c == Mixed(m, n, src, Modulus);
    assert c[..n] == block && c[n..] == rest;
    BlockUndone(m, inv, n, src, c);
  }

  /**
   * Multiplying by a left inverse modulo 26 undoes multiplying by `m`, on
   * any text of whole blocks of code points below 26.
   */
  lemma {:induction false} MixedInverse(m: seq<seq<int>>, inv: seq<seq<int>>, n: int, src: seq<int>)
    requires Supported(m, n) && Supported(inv, n) && InverseMod(inv, m, n)
    requires Covered(|src|, n) == |src| && InRange(src, Modulus)
    ensures Mixed(inv, n, Mixed(m, n, src, Modulus), Modulus) == src
    decreases |src|
  {
    if |src| >= n {
      MixedInverse(m, inv, n, src[n..]);
      FirstBlockUndone(m, inv, n, src);
      assert src == src[..n] + src[n..];
    }
  }

  /* ------------------------------------------------------------------ */
  /*                          writing the result                        */
  /* ------------------------------------------------------------------ */

  /**
   * What `arr_to_str` returns: the letters of `msg` take the first code
   * points of `dest` in their own case, other characters stay, and the
   * remaining code points follow as uppercase letters.
   */
  function Written(a: LangAlphabet, msg: string, dest: seq<int>): string
    requires Cased(a) && LetterCount(a, msg) <= |dest| && InRange(dest, CpCount(a))
  {
    var k := LetterCount(a, msg);
    assert InRange(dest[..k], CpCount(a)) && forall i :: k <= i < |dest| ==> ValidCp(a, dest[i]);
    Relettered(a, msg, dest[..k]) + VecToString(a, dest[k..])
  }

  /** Reading the code points of the written text back gives exactly `dest`. */
  lemma WrittenVec(a: LangAlphabet, msg: string, dest: seq<int>)
    requires WF(a) && LetterCount(a, msg) <= |dest| && InRange(dest, CpCount(a))
    ensures LetterCount(a, Written(a, msg, dest)) == |dest|
    ensures StringToVec(a, Written(a, msg, dest)) == dest
  {
    var k := LetterCount(a, msg);
    var head, tail := dest[..k], dest[k..];
    assert head + tail == dest;
    assert InRange(head, CpCount(a)) && InRange(tail, CpCount(a));
    var w1, w2 := Relettered(a, msg, head), VecToString(a, tail);
    assert Written(a, msg, dest) == w1 + w2;
    ReletteredVec(a, msg, head);
    VecToStringRoundTrip(a, tail);
    StringToVecAppend(a, w1, w2);
    StringToVecProps(a, w1 + w2);
  }

  /** The uppercase letters of `v`, given new code points, are the uppercase letters of those. */
  lemma {:induction false} ReletteredUpper(a: LangAlphabet, v: seq<int>, w: seq<int>)
    requires WF(a) && InRange(v, CpCount(a)) && InRange(w, CpCount(a)) && |w| == |v|
    ensures LetterCount(a, VecToString(a, v)) == |v|
    ensures Relettered(a, VecToString(a, v), w) == VecToString(a, w)
  {
    VecToStringRoundTrip(a, v);
    StringToVecProps(a, VecToString(a, v));
    if v != [] {
      var k := |v| - 1;
      var s := VecToString(a, v);
      assert s[..k] == VecToString(a, v[..k]);
      assert IsLetter(a, s[k]) && IsUpper(a, s[k]);
      ReletteredUpper(a, v[..k], w[..k]);
      assert VecToString(a, w) == VecToString(a, w[..k]) + [CpToUpper(a, w[k])];
    }
  }

  /** Relettering a concatenation reletters each part with its own code points. */
  lemma {:induction false} ReletteredAppend(a: LangAlphabet, s: string, t: string, cs: seq<int>, ct: seq<int>)
    requires Cased(a) && |cs| == LetterCount(a, s) && |ct| == LetterCount(a, t)
    requires InRange(cs, CpCount(a)) && InRange(ct, CpCount(a))
    ensures LetterCount(a, s + t) == |cs + ct| && InRange(cs + ct, CpCount(a))
    ensures Relettered(a, s + t, cs + ct) == Relettered(a, s, cs) + Relettered(a, t, ct)
  {
    LetterCountAppend(a, s, t);
    if t == [] {
      assert s + t == s && cs + ct == cs;
    } else {
      var n := |t| - 1;
      assert (s + t)[..|s + t| - 1] == s + t[..n];
      assert (s + t)[|s + t| - 1] == t[n];
      if IsLetter(a, t[n]) {
        var k := |ct| - 1;
        assert (cs + ct)[..|cs + ct| - 1] == cs + ct[..k];
        ReletteredAppend(a, s, t[..n], cs, ct[..k]);
      } else {
        ReletteredAppend(a, s, t[..n], cs, ct);
      }
    }
  }

  /** Pushing the letter of `v[j]` extends the letters of `v[i..j]`. */
  lemma VecToStringSnoc(a: LangAlphabet, v: seq<int>, i: int, j: int)
    requires 0 <= i <= j < |v| && InRange(v, CpCount(a))
    ensures VecToString(a, v[i..j + 1]) == VecToString(a, v[i..j]) + [CpToUpper(a, v[j])]
  {
    var x, y := VecToString(a, v[i..j + 1]), VecToString(a, v[i..j]) + [CpToUpper(a, v[j])];
    forall p | 0 <= p < |x| ensures x[p] == y[p] {
      assert v[i..j + 1][p] == v[i + p];
      if p < j - i {
        assert v[i..j][p] == v[i + p];
      }
    }
  }

  /**
   * The `map` over the characters of `msg` in `arr_to_str`: each letter is
   * given the code point `dest[i]` in its own case, the captured counter
   * `i` advancing on letters only; other characters stay. Indexing `dest`
   * demands a code point for every letter of `msg`.
   */
  method MapLetters(a: LangAlphabet, msg: string, dest: seq<int>) returns (result: string, i: int)
    requires WF(a) && LetterCount(a, msg) <= |dest| && InRange(dest, CpCount(a))
    ensures i == LetterCount(a, msg) && result == Relettered(a, msg, dest[..i])
  {
    ghost var cps := dest[..LetterCount(a, msg)];
    i := 0;
    result := [];
    for k := 0 to |msg|
      invariant i == LetterCount(a, msg[..k]) <= |cps|
      invariant result == Relettered(a, msg[..k], cps[..i])
    {
      var ch := msg[k];
      PrefixStep(a, msg, k);
      if IsLetter(a, ch) {
        var newLetter := UpdateCp(a, ch, dest[i]);
        ReletteredSnoc(a, msg, cps, k, i, result, newLetter);
        result := result + [newLetter];
        i := i + 1;
      } else {
        ReletteredSnoc(a, msg, cps, k, i, result, ch);
        result := result + [ch];
      }
    }
    assert msg[..|msg|] == msg && cps[..i] == cps;
  }

  /**
   * `arr_to_str`: the letters of `msg` take the first code points of
   * `dest`, then the uppercase letters of the rest of `dest` are pushed.
   */
  method ArrToStr(a: LangAlphabet, msg: string, dest: seq<int>) returns (result: string)
    requires WF(a) && LetterCount(a, msg) <= |dest| && InRange(dest, CpCount(a))
    ensures result == Written(a, msg, dest)
  {
    var i;
    result, i := MapLetters(a, msg, dest);
    ghost var head := result;
    while i < |dest|
      invariant LetterCount(a, msg) <= i <= |dest| && result == head + VecToString(a, dest[LetterCount(a, msg)..i])
    {
      VecToStringSnoc(a, dest, LetterCount(a, msg), i);
      result := result + [CpToUpper(a, dest[i])];
      i := i + 1;
    }
  }

  /* ------------------------------------------------------------------ */
  /*                       encryption and decryption                    */
  /* ------------------------------------------------------------------ */

  /** `run_array` over the whole text: no code points for no letters, else the padded blocks times `m`. */
  function EncryptedCps(m: seq<seq<int>>, n: int, txt: seq<int>, q: int): (c: seq<int>)
    requires Supported(m, n) && (txt == [] || q > 0)
    ensures txt == [] ==> c == []
    ensures txt != [] ==> |c| == |Padded(txt, n)| && |txt| <= |c| && |c| % n == 0 && InRange(c, q)
  {
    if txt == [] then []
    else
      CoveredAligned(|Padded(txt, n)|, n);
      Mixed(m, n, Padded(txt, n), q)
  }

  /** `encrypt` with key `m` of dimension `n`: the product's code points written over `msg`. */
  function Encrypted(a: LangAlphabet, m: seq<seq<int>>, n: int, msg: string): string
    requires WF(a) && Supported(m, n)
  {
    StringToVecProps(a, msg);
    var txt := StringToVec(a, msg);
    assert txt != [] ==> ValidCp(a, txt[0]);
    Written(a, msg, EncryptedCps(m, n, txt, CpCount(a)))
  }

  /** `decrypt` with key `m`: encryption with the inverse matrix, which `invert` demands. */
  function Decrypted(a: LangAlphabet, m: seq<seq<int>>, n: int, msg: string): string
    requires WF(a) && Supported(m, n) && Inverted(m, n).Some?
  {
    Encrypted(a, Inverted(m, n).value, n, msg)
  }

  /** The zeros `pad_txt` adds to the letters of `msg`, written as uppercase letters. */
  function Filler(a: LangAlphabet, n: int, msg: string): (f: string)
    requires TableauAlphabet(a) && (n == 2 || n == 3)
    ensures forall i :: 0 <= i < |f| ==> f[i] == CpToUpper(a, 0)
    ensures |f| < n && (LetterCount(a, msg) + |f|) % n == 0
  {
    StringToVecProps(a, msg);
    var txt := StringToVec(a, msg);
    seq(|Padded(txt, n)| - |txt|, _ => CpToUpper(a, 0))
  }

  /** Writing exactly as many code points as there are letters reletters the text. */
  lemma WrittenAll(a: LangAlphabet, s: string, p: seq<int>)
    requires WF(a) && LetterCount(a, s) == |p| && InRange(p, CpCount(a))
    ensures Written(a, s, p) == Relettered(a, s, p)
  {
    assert p[..|p|] == p && p[|p|..] == [];
  }

  /** Relettering a written text reletters the original message and then the appended letters. */
  lemma ReletteredWritten(a: LangAlphabet, msg: string, c: seq<int>, p: seq<int>)
    requires WF(a) && LetterCount(a, msg) <= |c| == |p| && InRange(c, CpCount(a)) && InRange(p, CpCount(a))
    requires LetterCount(a, Written(a, msg, c)) == |c|
    ensures Relettered(a, Written(a, msg, c), p) == Written(a, msg, p)
  {
    var k := LetterCount(a, msg);
    assert p[..k] + p[k..] == p;
    assert InRange(c[..k], CpCount(a)) && InRange(c[k..], CpCount(a));
    assert InRange(p[..k], CpCount(a)) && InRange(p[k..], CpCount(a));
    var head, tail := Relettered(a, msg, c[..k]), VecToString(a, c[k..]);
    assert Written(a, msg, c) == head + tail;
    ReletteredTwice(a, msg, c[..k], p[..k]);
    ReletteredUpper(a, c[k..], p[k..]);
    ReletteredAppend(a, head, tail, p[..k], p[k..]);
  }

  /** Writing over a written text with as many code points is writing over the original text. */
  lemma WrittenTwice(a: LangAlphabet, msg: string, c: seq<int>, p: seq<int>)
    requires WF(a) && LetterCount(a, msg) <= |c| == |p| && InRange(c, CpCount(a)) && InRange(p, CpCount(a))
    ensures LetterCount(a, Written(a, msg, c)) == |c|
    ensures Written(a, Written(a, msg, c), p) == Written(a, msg, p)
  {
    WrittenVec(a, msg, c);
    WrittenAll(a, Written(a, msg, c), p);
    ReletteredWritten(a, msg, c, p);
  }

  /** The code points of a text come back from decrypting their encryption, padded to whole blocks. */
  lemma CpsRoundTrip(m: seq<seq<int>>, inv: seq<seq<int>>, n: int, txt: seq<int>)
    requires Supported(m, n) && Supported(inv, n) && InverseMod(inv, m, n) && InRange(txt, Modulus)
    ensures EncryptedCps(inv, n, EncryptedCps(m, n, txt, Modulus), Modulus) == Padded(txt, n)
  {
    if txt != [] {
      var padded := Padded(txt, n);
      assert InRange(padded, Modulus);
      CoveredAligned(|padded|, n);
      var c := Mixed(m, n, padded, Modulus);
      PaddedAligned(c, n);
      MixedInverse(m, inv, n, padded);
    }
  }

  /** Writing its own padded code points over a message of plain letters appends the filler. */
  lemma WrittenOwn(a: LangAlphabet, n: int, msg: string)
    requires TableauAlphabet(a) && (n == 2 || n == 3) && PlainLetters(a, msg)
    ensures |StringToVec(a, msg)| == LetterCount(a, msg) && InRange(StringToVec(a, msg), Modulus)
    ensures Written(a, msg, Padded(StringToVec(a, msg), n)) == msg + Filler(a, n, msg)
  {
    ReletteredOwn(a, msg);
    var txt := StringToVec(a, msg);
    var k := |txt|;
    var p := Padded(txt, n);
    assert p[..k] == txt;
    assert InRange(p, Modulus);
    assert VecToString(a, p[k..]) == Filler(a, n, msg);
  }

  /**
   * Decrypting an encryption with an invertible key gives the message back,
   * followed by the padding as uppercase `A`-letters (code point 0).
   */
  lemma RoundTrip(a: LangAlphabet, m: seq<seq<int>>, n: int, msg: string)
    requires TableauAlphabet(a) && Supported(m, n) && Inverted(m, n).Some? && PlainLetters(a, msg)
    ensures Decrypted(a, m, n, Encrypted(a, m, n, msg)) == msg + Filler(a, n, msg)
  {
    var inv := Inverted(m, n).value;
    InvertedIsInverse(m, n);
    WrittenOwn(a, n, msg);
    var txt := StringToVec(a, msg);
    var c := EncryptedCps(m, n, txt, Modulus);
    var p := Padded(txt, n);
    assert Encrypted(a, m, n, msg) == Written(a, msg, c);
    WrittenVec(a, msg, c);
    CpsRoundTrip(m, inv, n, txt);
    assert InRange(p, Modulus);
    WrittenTwice(a, msg, c, p);
  }

  /* ------------------------------------------------------------------ */
  /*                             the cipher                             */
  /* ------------------------------------------------------------------ */

  /** Only the first `n` code points of a text enter its first block. */
  lemma BlockPrefix(m: seq<seq<int>>, n: int, s: seq<int>, t: seq<int>, q: int)
    requires Supported(m, n) && q != 0 && n <= |s| && n <= |t| && s[..n] == t[..n]
    ensures Block(m, n, s, q) == Block(m, n, t, q)
  {
    assert s[0] == s[..n][0] && s[1] == s[..n][1];
    assert t[0] == t[..n][0] && t[1] == t[..n][1];
    if n == 3 {
      assert s[2] == s[..n][2] && t[2] == t[..n][2];
    }
  }

  lemma AppendAssoc(x: seq<int>, y: seq<int>, z: seq<int>)
    ensures x + (y + z) == (x + y) + z
  {
  }

  /** A text that starts with a whole block of `s` is multiplied as that block and then the rest. */
  lemma FrontBlock(m: seq<seq<int>>, n: int, s: seq<int>, t: seq<int>, q: int)
    requires Supported(m, n) && q != 0 && n <= |s|
    ensures Mixed(m, n, s + t, q) == Block(m, n, s, q) + Mixed(m, n, s[n..] + t, q)
  {
    assert (s + t)[n..] == s[n..] + t;
    assert (s + t)[..n] == s[..n];
    BlockPrefix(m, n, s + t, s, q);
  }

  /** Multiplying a text of whole blocks followed by more text multiplies each part on its own. */
  lemma {:induction false} MixedAppend(m: seq<seq<int>>, n: int, s: seq<int>, t: seq<int>, q: int)
    requires Supported(m, n) && q != 0 && Covered(|s|, n) == |s|
    ensures Mixed(m, n, s + t, q) == Mixed(m, n, s, q) + Mixed(m, n, t, q)
    decreases |s|
  {
    if |s| >= n {
      MixedAppend(m, n, s[n..], t, q);
      FrontBlock(m, n, s, t, q);
      AppendAssoc(Block(m, n, s, q), Mixed(m, n, s[n..], q), Mixed(m, n, t, q));
    } else {
      assert s + t == t;
    }
  }

  /**
   * One step of `run_array`'s outer loop: `d` holds the product of the
   * blocks before `i` and then the original entries; splicing in the
   * product of the block at `i` gives the same for `i + n`.
   */
  lemma Advance(m: seq<seq<int>>, n: int, src: seq<int>, q: int, i: int, d: seq<int>, d1: seq<int>, old0: seq<int>)
    requires Supported(m, n) && q != 0 && 0 <= i && i + n <= |src| && Covered(i, n) == i && i + n <= |d| == |old0|
    requires d == Mixed(m, n, src[..i], q) + old0[i..]
    requires d1 == d[..i] + Block(m, n, src[i..], q) + d[i + n..]
    ensures Covered(i + n, n) == i + n && d1 == Mixed(m, n, src[..i + n], q) + old0[i + n..]
  {
    var block := src[i..i + n];
    assert src[..i + n] == src[..i] + block;
    MixedAppend(m, n, src[..i], block, q);
    assert block[n..] == [];
    assert block[..n] == block == src[i..][..n];
    BlockPrefix(m, n, block, src[i..], q);
    assert Mixed(m, n, block, q) == Block(m, n, src[i..], q);
    assert d[..i] == Mixed(m, n, src[..i], q);
    assert d[i + n..] == old0[i..][n..] == old0[i + n..];
  }

  /** When `run_array`'s outer loop stops, the blocks before `i` are all the whole blocks. */
  lemma Finish(m: seq<seq<int>>, n: int, src: seq<int>, q: int, i: int, d: seq<int>, old0: seq<int>)
    requires Supported(m, n) && (|src| < n || q != 0) && (i == 0 || q != 0)
    requires 0 <= i <= |src| < i + n && Covered(i, n) == i && Covered(|src|, n) == i + Covered(|src| - i, n)
    requires i <= |old0| && d == Mixed(m, n, src[..i], q) + old0[i..]
    ensures Covered(|src|, n) == i && d[..i] == Mixed(m, n, src, q) && d[i..] == old0[i..]
  {
    if q != 0 {
      assert src == src[..i] + src[i..];
      MixedAppend(m, n, src[..i], src[i..], q);
    }
  }

  /** The covered length splits at each block boundary `i` before it. */
  lemma CoveredFrom(len: int, n: int, i: int)
    requires (n == 2 || n == 3) && i >= 0 && i + n <= len && Covered(len, n) == i + Covered(len - i, n)
    ensures i + n <= Covered(len, n) && Covered(len, n) == i + n + Covered(len - (i + n), n)
  {
  }

  /**
   * The inner loop of `run_array`: entry `i + j` of `dest` becomes row `j`
   * of the key times the block of `src` at `i`, `modulo` the alphabet
   * length; no other entry changes.
   */
  method RunBlock(a: LangAlphabet, mat: Matrix, src: seq<int>, i: int, dest: array<int>)
    requires Supported(mat.value, mat.dimSize) && CpCount(a) != 0
    requires 0 <= i && i + mat.dimSize <= |src| && i + mat.dimSize <= dest.Length
    modifies dest
    ensures dest[..] == old(dest[..])[..i] + Block(mat.value, mat.dimSize, src[i..], CpCount(a)) + old(dest[..])[i + mat.dimSize..]
  {
    var n := mat.dimSize;
    var q := CpCount(a);
    ghost var block := Block(mat.value, n, src[i..], q);
    for j := 0 to n
      invariant forall k :: 0 <= k < j ==> dest[i + k] == block[k]
      invariant forall p :: 0 <= p < dest.Length && !(i <= p < i + j) ==> dest[p] == old(dest[p])
    {
      var sum := if n == 2 then mat.At(j, 0) * src[i] + mat.At(j, 1) * src[i + 1]
                 else mat.At(j, 0) * src[i] + mat.At(j, 1) * src[i + 1] + mat.At(j, 2) * src[i + 2];
      assert sum == RowTimesBlock(mat.value, n, src[i..], j);
      dest[i + j] := Modulo(sum, q);
    }
  }

  /**
   * `run_array`: for each whole block starting at `i` (the range stops at
   * `len - (n - 1)`, which underflows when the text is shorter than
   * `n - 1`), the block multiplied by the key is written to `dest` at `i`.
   * The rest of `dest` is untouched.
   */
  method RunArray(a: LangAlphabet, mat: Matrix, src: seq<int>, dest: array<int>)
    requires Supported(mat.value, mat.dimSize) && (|src| < mat.dimSize || CpCount(a) != 0)
    requires |src| + 1 >= mat.dimSize && Covered(|src|, mat.dimSize) <= dest.Length
    modifies dest
    ensures dest[..Covered(|src|, mat.dimSize)] == Mixed(mat.value, mat.dimSize, src, CpCount(a))
    ensures dest[Covered(|src|, mat.dimSize)..] == old(dest[Covered(|src|, mat.dimSize)..])
  {
    var n := mat.dimSize;
    ghost var m := mat.value;
    ghost var q := CpCount(a);
    ghost var old0 := dest[..];
    var i := 0;
    while i < |src| - (n - 1)
      invariant 0 <= i <= |src| && (i == 0 || q != 0) && Covered(i, n) == i
      invariant Covered(|src|, n) == i + Covered(|src| - i, n)
      invariant dest[..] == Mixed(m, n, src[..i], q) + old0[i..]
    {
      CoveredFrom(|src|, n, i);
      ghost var d := dest[..];
      RunBlock(a, mat, src, i, dest);
      Advance(m, n, src, q, i, d, dest[..], old0);
      i := i + n;
    }
    Finish(m, n, src, q, i, dest[..], old0);
  }

  class Hill {
    const matrix: Matrix

    /** `new`: the 2x2 identity key. */
    constructor ()
      ensures fresh(matrix) && matrix.dimSize == 2 && matrix.value == IdentityMatrix(2)
    {
      matrix := new Matrix();
      new;
      matrix.Reset();
    }

    /**
     * `encrypt`: the letters' code points, padded to whole blocks when
     * there are any, multiplied by the key and written over `msg`.
     */
    method Encrypt(a: LangAlphabet, msg: string) returns (result: string)
      requires WF(a) && Supported(matrix.value, matrix.dimSize)
      ensures result == Encrypted(a, matrix.value, matrix.dimSize, msg)
    {
      StringToVecProps(a, msg);
      var txt := StringToVec(a, msg);
      var dest := new int[|txt|](_ => 0);
      if txt != [] {
        assert ValidCp(a, txt[0]);
        txt := Padded(txt, matrix.dimSize);
        dest := new int[|txt|](_ => 0);
        CoveredAligned(|txt|, matrix.dimSize);
        RunArray(a, matrix, txt, dest);
        assert dest[..] == dest[..|txt|];
      }
      result := ArrToStr(a, msg, dest[..]);
    }

    /**
     * `decrypt`: the same walk with the inverse key, which `invert` computes
     * first and whose `expect` demands an invertible key even for a message
     * without letters.
     */
    method Decrypt(a: LangAlphabet, msg: string) returns (result: string)
      requires WF(a) && Supported(matrix.value, matrix.dimSize) && Inverted(matrix.value, matrix.dimSize).Some?
      ensures result == Decrypted(a, matrix.value, matrix.dimSize, msg)
    {
      StringToVecProps(a, msg);
      var txt := StringToVec(a, msg);
      var dest := new int[|txt|](_ => 0);
      var inv := matrix.Invert();
      if txt != [] {
        assert ValidCp(a, txt[0]);
        txt := Padded(txt, inv.dimSize);
        dest := new int[|txt|](_ => 0);
        CoveredAligned(|txt|, inv.dimSize);
        RunArray(a, inv, txt, dest);
        assert dest[..] == dest[..|txt|];
      }
      result := ArrToStr(a, msg, dest[..]);
    }
  }

  /* ------------------------------------------------------------------ */
  /*                          the library's example                     */
  /* ------------------------------------------------------------------ */

  /** The key "alphabeta": code points 0, 11, 15, 7, 0, 1, 4, 19, 0 in row-major order. */
  lemma ExampleKey()
    ensures RowMajor([0, 11, 15, 7, 0, 1, 4, 19, 0], 3) == [[0, 11, 15], [7, 0, 1], [4, 19, 0]]
  {
    var r := RowMajor([0, 11, 15, 7, 0, 1, 4, 19, 0], 3);
    assert r[0] == [0, 11, 15] && r[1] == [7, 0, 1] && r[2] == [4, 19, 0];
  }

  /** A block of three as its three residues. */
  lemma Block3(k: seq<seq<int>>, s: seq<int>, q: int)
    requires Supported(k, 3) && 3 <= |s| && q > 0
    ensures Block(k, 3, s, q) == [RowTimesBlock(k, 3, s, 0) % q, RowTimesBlock(k, 3, s, 1) % q, RowTimesBlock(k, 3, s, 2) % q]
  {
  }

  /** A block multiplied by the key "alphabeta", entry by entry. */
  lemma AlphabetaBlock(s: seq<int>)
    requires 3 <= |s|
    ensures Block([[0, 11, 15], [7, 0, 1], [4, 19, 0]], 3, s, 26)
         == [(11 * s[1] + 15 * s[2]) % 26, (7 * s[0] + s[2]) % 26, (4 * s[0] + 19 * s[1]) % 26]
  {
    Block3([[0, 11, 15], [7, 0, 1], [4, 19, 0]], s, 26);
  }

  /**
   * The products of the suffixes of "SECRETMESSAGE" padded that start at
   * a block boundary, from the last block back to the whole text.
   */
  lemma ExampleFrom12(k: seq<seq<int>>, s: seq<int>)
    requires k == [[0, 11, 15], [7, 0, 1], [4, 19, 0]] && s == [4, 0, 0]
    ensures Mixed(k, 3, s, 26) == [0, 2, 16]
  {
    AlphabetaBlock(s);
  }

  /** The product from position 9 on. */
  lemma ExampleFrom9(k: seq<seq<int>>, s: seq<int>)
    requires k == [[0, 11, 15], [7, 0, 1], [4, 19, 0]] && s == [18, 0, 6, 4, 0, 0]
    ensures Mixed(k, 3, s, 26) == [12, 2, 20, 0, 2, 16]
  {
    assert s[3..] == [4, 0, 0];
    ExampleFrom12(k, s[3..]);
    AlphabetaBlock(s);
  }

  /** The product from position 6 on. */
  lemma ExampleFrom6(k: seq<seq<int>>, s: seq<int>)
    requires k == [[0, 11, 15], [7, 0, 1], [4, 19, 0]] && s == [12, 4, 18, 18, 0, 6, 4, 0, 0]
    ensures Mixed(k, 3, s, 26) == [2, 24, 20, 12, 2, 20, 0, 2, 16]
  {
    assert s[3..] == [18, 0, 6, 4, 0, 0];
    ExampleFrom9(k, s[3..]);
    AlphabetaBlock(s);
  }

  /** The product from position 3 on. */
  lemma ExampleFrom3(k: seq<seq<int>>, s: seq<int>)
    requires k == [[0, 11, 15], [7, 0, 1], [4, 19, 0]] && s == [17, 4, 19, 12, 4, 18, 18, 0, 6, 4, 0, 0]
    ensures Mixed(k, 3, s, 26) == [17, 8, 14, 2, 24, 20, 12, 2, 20, 0, 2, 16]
  {
    assert s[3..] == [12, 4, 18, 18, 0, 6, 4, 0, 0];
    ExampleFrom6(k, s[3..]);
    AlphabetaBlock(s);
  }

  /** The product from position 0 on. */
  lemma ExampleFrom0(k: seq<seq<int>>, s: seq<int>)
    requires k == [[0, 11, 15], [7, 0, 1], [4, 19, 0]] && s == [18, 4, 2, 17, 4, 19, 12, 4, 18, 18, 0, 6, 4, 0, 0]
    ensures Mixed(k, 3, s, 26) == [22, 24, 18, 17, 8, 14, 2, 24, 20, 12, 2, 20, 0, 2, 16]
  {
    assert s[3..] == [17, 4, 19, 12, 4, 18, 18, 0, 6, 4, 0, 0];
    ExampleFrom3(k, s[3..]);
    AlphabetaBlock(s);
  }

  /** The key "alphabeta" has determinant 2039, which is 11 modulo 26. */
  lemma ExampleDet(k: seq<seq<int>>)
    requires k == [[0, 11, 15], [7, 0, 1], [4, 19, 0]]
    ensures Supported(k, 3) && Det(k, 3) == 2039 && 2039 % Modulus == 11
  {
    assert Minor(k, 3, 0, 0) == -19 && Minor(k, 3, 0, 1) == -4 && Minor(k, 3, 0, 2) == 133;
  }

  lemma GcdEleven()
    ensures Gcd(11, Modulus) == 1
  {
    assert Rem(11, 26) == 11;
    assert Rem(26, 11) == 4;
    assert Rem(11, 4) == 3;
    assert Rem(4, 3) == 1;
    assert Rem(3, 1) == 0;
  }

  /** 11 is coprime to 26, so the key "alphabeta" has an inverse. */
  lemma ExampleKeyInvertible(k: seq<seq<int>>)
    requires k == RowMajor([0, 11, 15, 7, 0, 1, 4, 19, 0], 3)
    ensures Supported(k, 3) && Inverted(k, 3).Some?
  {
    ExampleKey();
    ExampleDet(k);
    GcdEleven();
    InvertedExists(k, 3);
  }

  /**
   * "SECRETMESSAGE" as code points: padding adds two zeros, and the key
   * "alphabeta" turns the blocks into the code points of "WYSRIOCYUMCUACQ".
   */
  lemma ExampleCps()
    ensures Padded([18, 4, 2, 17, 4, 19, 12, 4, 18, 18, 0, 6, 4], 3) == [18, 4, 2, 17, 4, 19, 12, 4, 18, 18, 0, 6, 4, 0, 0]
    ensures Mixed(RowMajor([0, 11, 15, 7, 0, 1, 4, 19, 0], 3), 3, [18, 4, 2, 17, 4, 19, 12, 4, 18, 18, 0, 6, 4, 0, 0], 26)
         == [22, 24, 18, 17, 8, 14, 2, 24, 20, 12, 2, 20, 0, 2, 16]
  {
    ExampleKey();
    ExampleFrom0([[0, 11, 15], [7, 0, 1], [4, 19, 0]], [18, 4, 2, 17, 4, 19, 12, 4, 18, 18, 0, 6, 4, 0, 0]);
  }
}
