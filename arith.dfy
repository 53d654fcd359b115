/**
 * Rust's integer `/` and `%` (truncating toward zero), and the library's
 * `modulo`, `gcd`, `extended_gcd` and `mmi` built on them (`src/util/mod.rs`,
 * with identical copies in `src/util.rs`).
 */
module Arith {
  import opened Wrappers

  function Abs(x: int): nat { if x < 0 then -x else x }

  /** Rust's `a / b`: the quotient truncated toward zero. */
  function Quot(a: int, b: int): int
    requires b != 0
  {
    if (a < 0) == (b < 0) then Abs(a) / Abs(b) else -(Abs(a) / Abs(b))
  }

  /** Rust's `a % b`: the remainder carries the sign of `a`. */
  function Rem(a: int, b: int): (r: int)
    requires b != 0
    ensures Abs(r) < Abs(b)
    ensures a >= 0 ==> 0 <= r
    ensures a < 0 ==> r <= 0
  {
    if a >= 0 then a % Abs(b) else -((-a) % Abs(b))
  }

  /** Rust's `/` and `%` fit together: `a == b * (a / b) + a % b`. */
  lemma QuotRem(a: int, b: int)
    requires b != 0
    ensures a == b * Quot(a, b) + Rem(a, b)
  {
    var q, m := Abs(a) / Abs(b), Abs(a) % Abs(b);
    assert Abs(a) == Abs(b) * q + m;
    if a >= 0 && b > 0 {
    } else if a >= 0 {
      assert b * -q == Abs(b) * q;
    } else if b > 0 {
      assert b * -q == -(Abs(b) * q);
    } else {
      assert b * q == -(Abs(b) * q);
    }
  }

  /** Euclidean division is unique: `x == b * q + r` with `0 <= r < b` fixes `q` and `r`. */
  lemma DivModUnique(x: int, b: int, q: int, r: int)
    requires b > 0 && x == b * q + r && 0 <= r < b
    ensures x / b == q && x % b == r
  {
    var q0, r0 := x / b, x % b;
    assert x == b * q0 + r0;
    assert b * (q - q0) == r0 - r;
    if q - q0 >= 1 {
    } else if q - q0 <= -1 {
    }
  }

  /** Adding a multiple of `b` does not change the remainder. */
  lemma ModAddMultiple(x: int, k: int, b: int)
    requires b > 0
    ensures (x + b * k) % b == x % b
  {
    assert x == b * (x / b) + x % b;
    assert x + b * k == b * (x / b + k) + x % b;
    DivModUnique(x + b * k, b, x / b + k, x % b);
  }

  /**
   * `modulo(a, b)` is `(b + a % b) % b` with Rust's `%`; for a positive
   * modulus it is the representative of `a` in `0..b`, e.g. `modulo(-10, 26) == 16`.
   */
  function Modulo(a: int, b: int): (r: int)
    requires b != 0
    ensures b > 0 ==> 0 <= r < b && r == a % b
  {
    var r := Rem(b + Rem(a, b), b);
    if b > 0 then
      QuotRem(a, b);
      assert b + Rem(a, b) >= 0;
      assert r == (b + Rem(a, b)) % b;
      ModAddMultiple(b + Rem(a, b), Quot(a, b) - 1, b);
      assert b + Rem(a, b) + b * (Quot(a, b) - 1) == a;
      r
    else r
  }

  lemma ModuloExample()
    ensures Modulo(-10, 26) == 16
  {
  }

  /** `d` divides `x` (0 divides only 0). */
  predicate Divides(d: int, x: int) {
    if d == 0 then x == 0 else x % d == 0
  }

  lemma DividesByWitness(d: int, x: int, k: int)
    requires x == d * k
    ensures Divides(d, x)
  {
    if d != 0 {
      if d > 0 {
        DivModUnique(x, d, k, 0);
      } else {
        assert x == (-d) * (-k);
        DivModUnique(x, -d, -k, 0);
        assert x % (-d) == 0;
        assert x % d == x % (-d);
      }
    }
  }

  lemma DividesWitness(d: int, x: int) returns (k: int)
    requires Divides(d, x)
    ensures x == d * k
  {
    if d == 0 {
      k := 0;
    } else {
      k := x / d;
      assert x == d * (x / d) + x % d;
    }
  }

  /** A common divisor of `x` and `y` divides `x * k + y`. */
  lemma DividesCombination(d: int, x: int, y: int, k: int)
    requires Divides(d, x) && Divides(d, y)
    ensures Divides(d, x * k + y)
  {
    var kx := DividesWitness(d, x);
    var ky := DividesWitness(d, y);
    assert x * k + y == d * (kx * k + ky);
    DividesByWitness(d, x * k + y, kx * k + ky);
  }

  /** Rust `gcd`: `gcd(a, 0) = a`, otherwise `gcd(b, a % b)`. */
  function Gcd(a: int, b: int): (r: int)
    ensures a >= 0 && b >= 0 ==> r >= 0
    decreases Abs(b)
  {
    if b == 0 then a else Gcd(b, Rem(a, b))
  }

  lemma GcdExample()
    ensures Gcd(24, 32) == 8
  {
    assert Rem(24, 32) == 24;
    assert Rem(32, 24) == 8;
    assert Rem(24, 8) == 0;
  }

  /** `gcd(a, b)` divides both arguments. */
  lemma {:induction false} GcdDivides(a: int, b: int)
    ensures Divides(Gcd(a, b), a) && Divides(Gcd(a, b), b)
    decreases Abs(b)
  {
    var g := Gcd(a, b);
    if b == 0 {
      DividesByWitness(a, a, 1);
      DividesByWitness(a, 0, 0);
    } else {
      GcdDivides(b, Rem(a, b));
      QuotRem(a, b);
      DividesCombination(g, b, Rem(a, b), Quot(a, b));
    }
  }

  /** Every common divisor of `a` and `b` divides `gcd(a, b)`. */
  lemma {:induction false} GcdGreatest(a: int, b: int, d: int)
    requires Divides(d, a) && Divides(d, b)
    ensures Divides(d, Gcd(a, b))
    decreases Abs(b)
  {
    if b != 0 {
      DividesCombination(d, b, a, -Quot(a, b));
      QuotRem(a, b);
      assert b * -Quot(a, b) + a == Rem(a, b);
      GcdGreatest(b, Rem(a, b), d);
    }
  }

  lemma DividesAntisymmetric(x: int, y: int)
    requires x >= 0 && y >= 0 && Divides(x, y) && Divides(y, x)
    ensures x == y
  {
    if x != 0 && y != 0 {
      var k := DividesWitness(x, y);
      var l := DividesWitness(y, x);
      assert y == y * (k * l);
      assert k * l == 1;
    }
  }

  /** For non-negative arguments the order does not matter. */
  lemma GcdCommutes(a: int, b: int)
    requires a >= 0 && b >= 0
    ensures Gcd(a, b) == Gcd(b, a)
  {
    GcdDivides(a, b);
    GcdDivides(b, a);
    GcdGreatest(a, b, Gcd(b, a));
    GcdGreatest(b, a, Gcd(a, b));
    DividesAntisymmetric(Gcd(a, b), Gcd(b, a));
  }

  /**
   * Rust `extended_gcd(a, b)`: returns `(g, x, y)` by recursion on `(b % a, a)`;
   * the coefficients satisfy Bezout's identity `a*x + b*y == g`.
   */
  function ExtendedGcd(a: int, b: int): (r: (int, int, int))
    ensures a * r.1 + b * r.2 == r.0
    decreases Abs(a)
  {
    if a == 0 then (b, 0, 1)
    else
      var (g, x, y) := ExtendedGcd(Rem(b, a), a);
      BezoutStep(a, b, g, x, y);
      (g, y - Quot(b, a) * x, x)
  }

  lemma BezoutStep(a: int, b: int, g: int, x: int, y: int)
    requires a != 0 && Rem(b, a) * x + a * y == g
    ensures a * (y - Quot(b, a) * x) + b * x == g
  {
    QuotRem(b, a);
    var q, m := Quot(b, a), Rem(b, a);
    var aqx := (a * q) * x;
    MulSub(a, y, q * x);
    MulAssoc(a, q, x);
    MulAddRight(a * q, m, x);
    assert a * (y - q * x) == a * y - aqx;
    assert b * x == aqx + m * x;
  }

  lemma MulSub(a: int, b: int, c: int)
    ensures a * (b - c) == a * b - a * c
  {
  }

  lemma MulAssoc(a: int, b: int, c: int)
    ensures a * (b * c) == (a * b) * c
  {
  }

  lemma MulAddRight(a: int, b: int, c: int)
    ensures (a + b) * c == a * c + b * c
  {
  }

  /** The `g` of `extended_gcd(a, b)` is `gcd(b, a)`. */
  lemma {:induction false} ExtendedGcdIsGcd(a: int, b: int)
    ensures ExtendedGcd(a, b).0 == Gcd(b, a)
    decreases Abs(a)
  {
    if a != 0 {
      ExtendedGcdIsGcd(Rem(b, a), a);
    }
  }

  /** `m` is a multiplicative inverse of `a` modulo `b`. */
  predicate IsInverse(a: int, m: int, b: int)
    requires b > 0
  {
    (a * m) % b == 1 % b
  }

  /**
   * Rust `mmi(a, b)`: `Some(modulo(x, b))` when `extended_gcd(a, b)` yields
   * `g == 1`, otherwise `None`. For `a >= 0` and `b > 0` it finds an inverse in
   * `0..b` exactly when `a` and `b` are coprime, and `None` means no inverse exists.
   */
  function Mmi(a: int, b: int): (r: Option<int>)
    requires b != 0
    ensures a >= 0 && b > 0 ==> (r.Some? <==> Gcd(a, b) == 1)
    ensures a >= 0 && b > 0 && r.Some? ==> 0 <= r.value < b && IsInverse(a, r.value, b)
    ensures a >= 0 && b > 0 && r.None? ==> forall m :: !IsInverse(a, m, b)
  {
    var (g, x, y) := ExtendedGcd(a, b);
    var r := if g == 1 then Some(Modulo(x, b)) else None;
    if a >= 0 && b > 0 then
      ExtendedGcdIsGcd(a, b);
      GcdCommutes(a, b);
      MmiCorrect(a, b, g, x, y);
      r
    else r
  }

  lemma MmiCorrect(a: int, b: int, g: int, x: int, y: int)
    requires a >= 0 && b > 0 && g == Gcd(a, b) && a * x + b * y == g
    ensures g == 1 ==> IsInverse(a, x % b, b)
    ensures g != 1 ==> forall m :: !IsInverse(a, m, b)
  {
    if g == 1 {
      InverseFromBezout(a, b, x, y);
    } else {
      forall m | IsInverse(a, m, b)
        ensures false
      {
        NoInverseUnlessCoprime(a, b, m);
      }
    }
  }

  /** From `a*x + b*y == 1`, `x % b` is an inverse of `a` modulo `b`. */
  lemma InverseFromBezout(a: int, b: int, x: int, y: int)
    requires b > 0 && a * x + b * y == 1
    ensures IsInverse(a, x % b, b)
  {
    var m, q := x % b, x / b;
    var k := -y - a * q;
    assert x == b * q + m;
    MulSub(a, x, b * q);
    MulAssoc(a, b, q);
    MulAssoc(b, a, q);
    assert a * m == a * x - b * (a * q);
    assert b * k == -(b * y) - b * (a * q);
    assert a * m == 1 + b * k;
    ModAddMultiple(1, k, b);
  }

  /** An inverse of `a` modulo `b` forces `gcd(a, b) == 1`. */
  lemma NoInverseUnlessCoprime(a: int, b: int, m: int)
    requires a >= 0 && b > 0 && IsInverse(a, m, b)
    ensures Gcd(a, b) == 1
  {
    var g := Gcd(a, b);
    GcdDivides(a, b);
    if b == 1 {
      DividesOne(g);
    } else {
      var t := InverseWitness(a, m, b);
      var am, bt := a * m, b * t;
      DividesCombination(g, a, 0, m) by { DividesByWitness(g, 0, 0); }
      DividesCombination(g, b, 0, t) by { DividesByWitness(g, 0, 0); }
      assert Divides(g, am) && Divides(g, bt);
      DividesCombination(g, bt, am, 1);
      assert bt * 1 + am == 1;
      DividesOne(g);
    }
  }

  lemma InverseWitness(a: int, m: int, b: int) returns (t: int)
    requires b > 1 && IsInverse(a, m, b)
    ensures a * m + b * t == 1
  {
    var am := a * m;
    t := -(am / b);
    assert am == b * (am / b) + am % b;
    assert 1 % b == 1;
  }

  lemma DividesOne(g: int)
    requires g >= 0 && Divides(g, 1)
    ensures g == 1
  {
    var k := DividesWitness(g, 1);
    UnitFactor(g, k);
  }

  lemma UnitFactor(g: int, k: int)
    requires g >= 0 && g * k == 1
    ensures g == 1
  {
    if g >= 2 {
      if k >= 1 { } else { }
    }
  }
}
