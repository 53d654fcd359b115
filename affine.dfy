/**
 * The affine cipher (`src/cipher/monoalph/affine.rs`): a letter of code
 * point `cp` becomes the letter of `a * cp + b` modulo the alphabet length
 * `n`, in its own case; decryption multiplies by the modular inverse of
 * `a`, and panics when there is none. `solve_known_pair` recovers `a` and
 * `b` from two plaintext/ciphertext pairs.
 */
module Affine {
  import opened Wrappers
  import opened Permutations
  import opened Arith
  import opened LangAlphabets
  import opened Languages
  import opened Letterwise

  /** `modulo(a * cp + b, n)` for each code point of `p`. */
  function AffineCps(p: seq<int>, a: int, b: int, n: int): (r: seq<int>)
    requires InRange(p, n)
    ensures |r| == |p| && InRange(r, n)
  {
    seq(|p|, i requires 0 <= i < |p| => Modulo(a * p[i] + b, n))
  }

  /** `modulo(mmi * (cp - b), n)` for each code point of `p`. */
  function UnaffineCps(p: seq<int>, m: int, b: int, n: int): (r: seq<int>)
    requires InRange(p, n)
    ensures |r| == |p| && InRange(r, n)
  {
    seq(|p|, i requires 0 <= i < |p| => Modulo(m * (p[i] - b), n))
  }

  /** `encrypt`. */
  function Encrypted(alph: LangAlphabet, a: int, b: int, msg: string): string
    requires WF(alph)
  {
    StringToVecProps(alph, msg);
    Relettered(alph, msg, AffineCps(StringToVec(alph, msg), a, b, CpCount(alph)))
  }

  /**
   * `decrypt`, with `None` where it panics: `mmi(a, n)` finds no inverse
   * (for an empty alphabet either `mmi` fails or its `modulo` divides by zero).
   */
  function Decrypted(alph: LangAlphabet, a: int, b: int, msg: string): (r: Option<string>)
    requires WF(alph)
  {
    var n := CpCount(alph);
    if n == 0 then None
    else match Mmi(a, n)
      case None => None
      case Some(m) =>
        StringToVecProps(alph, msg);
        Some(Relettered(alph, msg, UnaffineCps(StringToVec(alph, msg), m, b, n)))
  }

  /* ------------------------------------------------------------------ */
  /*                     arithmetic of the two maps                     */
  /* ------------------------------------------------------------------ */

  /** `m * a == 1 + n * t` for an inverse `m` of `a` modulo `n > 1`. */
  lemma InverseSplit(a: int, m: int, n: int) returns (t: int)
    requires n > 1 && IsInverse(a, m, n)
    ensures m * a == 1 + n * t
  {
    var am := a * m;
    t := am / n;
    assert am == n * t + am % n;
    assert 1 % n == 1;
  }

  /** Decrypting an encrypted code point gives it back. */
  lemma AffineBack(x: int, a: int, b: int, m: int, n: int)
    requires n > 0 && 0 <= x < n && IsInverse(a, m, n)
    ensures (m * ((a * x + b) % n - b)) % n == x
  {
    if n > 1 {
      var t := InverseSplit(a, m, n);
      var q, y := (a * x + b) / n, (a * x + b) % n;
      assert a * x + b == n * q + y;
      var ma := m * a;
      assert m * (y - b) == ma * x - n * (m * q);
      assert ma * x == x + n * (t * x);
      assert m * (y - b) == n * (t * x - m * q) + x;
      DivModUnique(m * (y - b), n, t * x - m * q, x);
    }
  }

  /** Encrypting a decrypted code point gives it back. */
  lemma AffineForth(y: int, a: int, b: int, m: int, n: int)
    requires n > 0 && 0 <= y < n && IsInverse(a, m, n)
    ensures (a * ((m * (y - b)) % n) + b) % n == y
  {
    if n > 1 {
      var t := InverseSplit(a, m, n);
      var q, z := (m * (y - b)) / n, (m * (y - b)) % n;
      assert m * (y - b) == n * q + z;
      var ma := m * a;
      assert a * z == ma * (y - b) - n * (a * q);
      assert ma * (y - b) == (y - b) + n * (t * (y - b));
      assert a * z + b == n * (t * (y - b) - a * q) + y;
      DivModUnique(a * z + b, n, t * (y - b) - a * q, y);
    }
  }

  lemma AffineCpsBack(p: seq<int>, a: int, b: int, m: int, n: int)
    requires n > 0 && InRange(p, n) && IsInverse(a, m, n)
    ensures UnaffineCps(AffineCps(p, a, b, n), m, b, n) == p
    ensures AffineCps(UnaffineCps(p, m, b, n), a, b, n) == p
  {
    forall i | 0 <= i < |p|
      ensures UnaffineCps(AffineCps(p, a, b, n), m, b, n)[i] == p[i]
      ensures AffineCps(UnaffineCps(p, m, b, n), a, b, n)[i] == p[i]
    {
      AffineBack(p[i], a, b, m, n);
      AffineForth(p[i], a, b, m, n);
    }
  }

  /* ------------------------------------------------------------------ */
  /*                      properties of the cipher                      */
  /* ------------------------------------------------------------------ */

  /**
   * Letter by letter: a non-letter is copied, and a letter becomes the
   * letter of the same case with code point `(a * cp + b) mod n`.
   */
  lemma EncryptedLetters(alph: LangAlphabet, a: int, b: int, msg: string)
    requires WF(alph)
    ensures |Encrypted(alph, a, b, msg)| == |msg|
    ensures forall i :: 0 <= i < |msg| && !IsLetter(alph, msg[i]) ==> Encrypted(alph, a, b, msg)[i] == msg[i]
    ensures forall i :: 0 <= i < |msg| && IsLetter(alph, msg[i]) ==>
      IsLetter(alph, Encrypted(alph, a, b, msg)[i]) && (IsUpper(alph, Encrypted(alph, a, b, msg)[i]) <==> IsUpper(alph, msg[i]))
      && GetCp(alph, Encrypted(alph, a, b, msg)[i]) == (a * GetCp(alph, msg[i]) + b) % CpCount(alph)
  {
    StringToVecProps(alph, msg);
    var p := StringToVec(alph, msg);
    var n := CpCount(alph);
    if n == 0 {
      ReletteredAt(alph, msg, AffineCps(p, a, b, n));
    } else {
      ReletteredPointwise(alph, msg, AffineCps(p, a, b, n), x => (a * x + b) % n);
    }
  }

  /** Decryption fails exactly when `a` has no inverse modulo a non-empty alphabet's length. */
  lemma DecryptPanics(alph: LangAlphabet, a: int, b: int, msg: string)
    requires WF(alph) && a >= 0
    ensures Decrypted(alph, a, b, msg).Some? <==> CpCount(alph) > 0 && Gcd(a, CpCount(alph)) == 1
  {
  }

  /**
   * Decryption letter by letter, when it succeeds: a letter becomes the
   * letter of the same case with code point `(m * (cp - b)) mod n`, where
   * `m` is an inverse of `a`.
   */
  lemma DecryptedLetters(alph: LangAlphabet, a: int, b: int, msg: string)
    requires WF(alph) && a >= 0 && Decrypted(alph, a, b, msg).Some?
    ensures CpCount(alph) > 0 && Mmi(a, CpCount(alph)).Some? && IsInverse(a, Mmi(a, CpCount(alph)).value, CpCount(alph))
    ensures |Decrypted(alph, a, b, msg).value| == |msg|
    ensures forall i :: 0 <= i < |msg| && !IsLetter(alph, msg[i]) ==> Decrypted(alph, a, b, msg).value[i] == msg[i]
    ensures forall i :: 0 <= i < |msg| && IsLetter(alph, msg[i]) ==>
      IsLetter(alph, Decrypted(alph, a, b, msg).value[i])
      && (IsUpper(alph, Decrypted(alph, a, b, msg).value[i]) <==> IsUpper(alph, msg[i]))
      && GetCp(alph, Decrypted(alph, a, b, msg).value[i]) == (Mmi(a, CpCount(alph)).value * (GetCp(alph, msg[i]) - b)) % CpCount(alph)
  {
    StringToVecProps(alph, msg);
    var p := StringToVec(alph, msg);
    var n := CpCount(alph);
    var m := Mmi(a, n).value;
    ReletteredPointwise(alph, msg, UnaffineCps(p, m, b, n), x => (m * (x - b)) % n);
  }

  /**
   * With `a` coprime to the alphabet length, decryption undoes encryption
   * and encryption undoes decryption, on a message of plain letters.
   */
  lemma RoundTrip(alph: LangAlphabet, a: int, b: int, msg: string)
    requires WF(alph) && PlainLetters(alph, msg) && CpCount(alph) > 0 && a >= 0 && Gcd(a, CpCount(alph)) == 1
    ensures Decrypted(alph, a, b, Encrypted(alph, a, b, msg)) == Some(msg)
    ensures Decrypted(alph, a, b, msg).Some? && Encrypted(alph, a, b, Decrypted(alph, a, b, msg).value) == msg
  {
    StringToVecProps(alph, msg);
    var p := StringToVec(alph, msg);
    var n := CpCount(alph);
    var m := Mmi(a, n).value;
    AffineCpsBack(p, a, b, m, n);
    ReletteredUndone(alph, msg, AffineCps(p, a, b, n));
    ReletteredUndone(alph, msg, UnaffineCps(p, m, b, n));
  }

  /** The key `reset` leaves, `a = 1, b = 0`, changes nothing. */
  lemma ResetKeyIdentity(alph: LangAlphabet, msg: string)
    requires WF(alph) && PlainLetters(alph, msg)
    ensures Encrypted(alph, 1, 0, msg) == msg
  {
    StringToVecProps(alph, msg);
    var p := StringToVec(alph, msg);
    forall i | 0 <= i < |p| ensures AffineCps(p, 1, 0, CpCount(alph))[i] == p[i] {
      assert p[i] % CpCount(alph) == p[i];
    }
    assert AffineCps(p, 1, 0, CpCount(alph)) == p;
    ReletteredOwn(alph, msg);
  }

  /* ------------------------------------------------------------------ */
  /*                          solve_known_pair                          */
  /* ------------------------------------------------------------------ */

  /**
   * `solve_known_pair`: the key `(a, b)` it assigns, or `None` where it
   * panics because `p0 - p1` has no inverse modulo `n` (or `n` is 0, so
   * that `modulo` divides by zero).
   */
  function KnownPair(n: nat, p0: int, p1: int, c0: int, c1: int): (r: Option<(int, int)>)
  {
    if n == 0 then None
    else
      var d := Modulo(p0 - p1, n);
      match Mmi(d, n)
      case None => None
      case Some(inv) => Some((Modulo(inv * (c0 - c1), n), Modulo(inv * (p0 * c1 - p1 * c0), n)))
  }

  /** The solver panics exactly when `p0 - p1` is not coprime to `n`. */
  lemma KnownPairPanics(n: nat, p0: int, p1: int, c0: int, c1: int)
    ensures KnownPair(n, p0, p1, c0, c1).Some? <==> n > 0 && Gcd(Modulo(p0 - p1, n), n) == 1
  {
  }

  lemma DistribSub(x: int, y: int, z: int)
    ensures x * (y - z) == x * y - x * z
  {
  }

  /** `inv * (c0 - c1) * p + inv * (p0 * c1 - p1 * c0)` collapses to `c * inv * (p0 - p1)` at either known pair. */
  lemma PairIdentity(inv: int, c0: int, c1: int, p0: int, p1: int)
    ensures inv * (c0 - c1) * p0 + inv * (p0 * c1 - p1 * c0) == c0 * (inv * (p0 - p1))
    ensures inv * (c0 - c1) * p1 + inv * (p0 * c1 - p1 * c0) == c1 * (inv * (p0 - p1))
  {
    var s, u := c0 - c1, p0 * c1 - p1 * c0;
    assert s * p0 + u == c0 * (p0 - p1);
    assert s * p1 + u == c1 * (p0 - p1);
    assert inv * s * p0 + inv * u == inv * (s * p0 + u);
    assert inv * s * p1 + inv * u == inv * (s * p1 + u);
  }

  /** `(x - n * q) * p + y - n * r == x * p + y - n * (q * p + r)`. */
  lemma ShiftedProduct(x: int, y: int, n: int, p: int, q: int, r: int)
    ensures (x - n * q) * p + (y - n * r) == x * p + y - n * (q * p + r)
  {
  }

  /** `c * (1 + n * u) == c + n * (c * u)`. */
  lemma UnitMultiple(c: int, n: int, u: int)
    ensures c * (1 + n * u) == c + n * (c * u)
  {
  }

  /**
   * The arithmetic of one known pair: with `d` the residue of `p0 - p1` and
   * `inv` its inverse, the solved `a` and `b` send `p` to `c`.
   */
  lemma PairSolved(n: int, inv: int, e: int, c: int, p: int, a: int, b: int, x: int, y: int)
    requires n > 1
    requires x * p + y == c * e && (e - 1) % n == 0
    requires a == x % n && b == y % n
    ensures (a * p + b) % n == c % n
  {
    var qa, qb, u := x / n, y / n, (e - 1) / n;
    assert x == n * qa + a && y == n * qb + b;
    assert e == 1 + n * u;
    ShiftedProduct(x, y, n, p, qa, qb);
    UnitMultiple(c, n, u);
    var k := c * u - (qa * p + qb);
    assert a * p + b == c + n * k;
    ModAddMultiple(c, k, n);
  }

  /** `inv * (p0 - p1)` is 1 up to a multiple of `n` when `inv` inverts the residue `d` of `p0 - p1`. */
  lemma InverseOfDifference(n: int, p0: int, p1: int, d: int, inv: int)
    requires n > 1 && d == (p0 - p1) % n && (d * inv) % n == 1
    ensures (inv * (p0 - p1) - 1) % n == 0
  {
    var qd, t := (p0 - p1) / n, (d * inv) / n;
    assert p0 - p1 == n * qd + d;
    assert d * inv == n * t + 1;
    var w := inv * qd + t;
    assert inv * (p0 - p1) == inv * (n * qd) + inv * d;
    assert inv * (n * qd) == n * (inv * qd);
    assert inv * (p0 - p1) - 1 == n * w;
    ModAddMultiple(0, w, n);
  }

  /** The known-pair arithmetic over plain integers: residues `a` and `b` built from an inverse `inv` of `p0 - p1`. */
  lemma SolvedKey(n: int, p0: int, p1: int, c0: int, c1: int, d: int, inv: int, a: int, b: int)
    requires n > 0 && d == (p0 - p1) % n && (d * inv) % n == 1 % n
    requires a == (inv * (c0 - c1)) % n && b == (inv * (p0 * c1 - p1 * c0)) % n
    ensures (a * p0 + b) % n == c0 % n && (a * p1 + b) % n == c1 % n
  {
    if n > 1 {
      var x, y := inv * (c0 - c1), inv * (p0 * c1 - p1 * c0);
      assert 1 % n == 1;
      InverseOfDifference(n, p0, p1, d, inv);
      var e := inv * (p0 - p1);
      PairIdentity(inv, c0, c1, p0, p1);
      PairSolved(n, inv, e, c0, p0, a, b, x, y);
      PairSolved(n, inv, e, c1, p1, a, b, x, y);
    }
  }

  /** The solved key maps both known plaintext code points to their ciphertexts modulo `n`. */
  lemma KnownPairSolves(n: nat, p0: int, p1: int, c0: int, c1: int)
    requires KnownPair(n, p0, p1, c0, c1).Some?
    ensures var (a, b) := KnownPair(n, p0, p1, c0, c1).value;
      0 <= a < n && 0 <= b < n && (a * p0 + b) % n == c0 % n && (a * p1 + b) % n == c1 % n
  {
    var d := Modulo(p0 - p1, n);
    var inv := Mmi(d, n).value;
    SolvedKey(n, p0, p1, c0, c1, d, inv, Modulo(inv * (c0 - c1), n), Modulo(inv * (p0 * c1 - p1 * c0), n));
  }

  /* ------------------------------------------------------------------ */
  /*                             randomize                              */
  /* ------------------------------------------------------------------ */

  /** `(lo..n).filter(|x| mmi(x, n) != None)`. */
  function Units(n: int, lo: int): (r: seq<int>)
    requires n > 0
    decreases n - lo
  {
    if lo >= n then [] else (if Mmi(lo, n).Some? then [lo] else []) + Units(n, lo + 1)
  }

  /** The candidates for `a`: exactly the values from `lo` below `n` coprime to `n`. */
  lemma {:induction false} UnitsMembers(n: int, lo: int)
    requires n > 0 && lo >= 0
    ensures forall x :: x in Units(n, lo) <==> lo <= x < n && Gcd(x, n) == 1
    decreases n - lo
  {
    if lo < n {
      UnitsMembers(n, lo + 1);
    }
  }

  /** The value `randomize` gives `a`: the drawn candidate, or 1 when there is none. */
  function UnitDrawn(n: int, pick: int): int
    requires n > 0 && (|Units(n, 1)| > 0 ==> 0 <= pick < |Units(n, 1)|)
  {
    if |Units(n, 1)| == 0 then 1 else Units(n, 1)[pick]
  }

  lemma GcdWithOne(n: int)
    requires n > 0
    ensures Gcd(1, n) == 1
  {
    assert Rem(n, 1) == 0;
    if n > 1 {
      assert Rem(1, n) == 1;
      assert Gcd(1, n) == Gcd(n, 1) == Gcd(1, 0);
    } else {
      assert Rem(1, 1) == 0;
    }
  }

  /** After `randomize`, `a` is coprime to `n` (so decryption succeeds) and lies in `1..n` when `n > 1`. */
  lemma UnitDrawnInvertible(n: int, pick: int)
    requires n > 0 && (|Units(n, 1)| > 0 ==> 0 <= pick < |Units(n, 1)|)
    ensures Gcd(UnitDrawn(n, pick), n) == 1
    ensures n > 1 ==> 1 <= UnitDrawn(n, pick) < n
  {
    var u := Units(n, 1);
    UnitsMembers(n, 1);
    GcdWithOne(n);
    if n > 1 {
      assert 1 in u;
      assert u[pick] in u;
    }
  }

  class Affine {
    var a: int
    var b: int

    /** `new`: `a = 1, b = 0`. */
    constructor ()
      ensures a == 1 && b == 0
    {
      a := 1;
      b := 0;
    }

    /** `reset`: `a = 1, b = 0`. */
    method Reset()
      modifies this
      ensures a == 1 && b == 0
    {
      a := 1;
      b := 0;
    }

    /**
     * `randomize`: `pick` stands for the choice among the candidates for
     * `a`, `draw` for `gen_range(0..n)`.
     */
    method Randomize(n: int, pick: int, draw: int)
      requires n > 0 && (|Units(n, 1)| > 0 ==> 0 <= pick < |Units(n, 1)|) && 0 <= draw < n
      modifies this
      ensures a == UnitDrawn(n, pick) && b == draw
      ensures Gcd(a, n) == 1 && 0 <= b < n
    {
      var candidates := Units(n, 1);
      a := if |candidates| == 0 then 1 else candidates[pick];
      b := draw;
      UnitDrawnInvertible(n, pick);
    }

    /** `solve_known_pair`; it panics unless `p0 - p1` is invertible modulo `n`. */
    method SolveKnownPair(n: nat, plain0: int, plain1: int, cipher0: int, cipher1: int)
      requires KnownPair(n, plain0, plain1, cipher0, cipher1).Some?
      modifies this
      ensures (a, b) == KnownPair(n, plain0, plain1, cipher0, cipher1).value
    {
      var d := Modulo(plain0 - plain1, n);
      var invD := Mmi(d, n).value;
      a := Modulo(invD * (cipher0 - cipher1), n);
      b := Modulo(invD * (plain0 * cipher1 - plain1 * cipher0), n);
    }
  }
}
