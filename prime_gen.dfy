/**
 * The prime generator of `src/util/prime_gen.rs`: a growing list of the
 * primes found so far, a cursor into it that `next` advances, and `factor`,
 * which factors a number by trial division with the generator's primes.
 */
module Primes {
  import opened Arith

  /* ------------------------------------------------------------------ */
  /*                          primes and factors                        */
  /* ------------------------------------------------------------------ */

  predicate IsPrime(n: int) {
    n >= 2 && forall d :: 2 <= d < n ==> n % d != 0
  }

  /** No prime lies strictly between `a` and `b`. */
  predicate NoPrimeBetween(a: int, b: int) {
    forall n :: a < n < b ==> !IsPrime(n)
  }

  /** `s` holds the first `|s|` primes in ascending order, as `primes` does. */
  predicate Consecutive(s: seq<int>) {
    |s| >= 1 && s[0] == 2
    && (forall i :: 0 <= i < |s| ==> IsPrime(s[i]))
    && (forall i, j :: 0 <= i < j < |s| ==> s[i] < s[j])
    && (forall i :: 0 < i < |s| ==> NoPrimeBetween(s[i - 1], s[i]))
  }

  /** A divisor `d` of `n` strictly between 1 and `n` makes `n` composite. */
  lemma NotPrime(n: int, d: int)
    requires 2 <= d < n && n % d == 0
    ensures !IsPrime(n)
  {
  }

  /** Divisibility is transitive. */
  lemma ModTrans(a: int, b: int, c: int)
    requires b >= 1 && c >= 1 && a % b == 0 && b % c == 0
    ensures a % c == 0
  {
    var k := DividesWitness(b, a);
    var j := DividesWitness(c, b);
    MulAssoc(c, j, k);
    DividesByWitness(c, a, j * k);
  }

  lemma SquareMono(a: int, b: int)
    requires 0 <= a <= b
    ensures a * a <= b * b
  {
    assert b * b - a * a == (b - a) * (b + a);
  }

  lemma MulMono(a: int, b: int, c: int)
    requires 0 <= a && b <= c
    ensures a * b <= a * c
  {
    assert a * c - a * b == a * (c - b);
  }

  /** The least divisor of `n` that is at least `d`. */
  function LeastFactorFrom(n: int, d: int): (r: int)
    requires 2 <= d <= n
    ensures d <= r <= n
    decreases n - d
  {
    if n % d == 0 then d else LeastFactorFrom(n, d + 1)
  }

  lemma {:induction false} LeastFactorFromProps(n: int, d: int)
    requires 2 <= d <= n && forall e :: 2 <= e < d ==> n % e != 0
    ensures d <= LeastFactorFrom(n, d) <= n && n % LeastFactorFrom(n, d) == 0
    ensures forall e :: 2 <= e < LeastFactorFrom(n, d) ==> n % e != 0
    decreases n - d
  {
    if n % d != 0 {
      LeastFactorFromProps(n, d + 1);
    }
  }

  /** The smallest factor of `n` above 1. */
  function LeastFactor(n: int): (r: int)
    requires n >= 2
    ensures 2 <= r <= n
  {
    LeastFactorFrom(n, 2)
  }

  /** The smallest factor of `n` divides it and nothing between 2 and it does. */
  lemma LeastFactorDivides(n: int)
    requires n >= 2
    ensures n % LeastFactor(n) == 0
    ensures forall e :: 2 <= e < LeastFactor(n) ==> n % e != 0
  {
    LeastFactorFromProps(n, 2);
  }

  /**
   * The smallest factor of `n` divides it, is prime, and is `n` itself
   * exactly when `n` is prime; otherwise its square is at most `n`.
   */
  lemma LeastFactorProps(n: int)
    requires n >= 2
    ensures n % LeastFactor(n) == 0
    ensures forall e :: 2 <= e < LeastFactor(n) ==> n % e != 0
    ensures IsPrime(LeastFactor(n))
    ensures IsPrime(n) <==> LeastFactor(n) == n
    ensures LeastFactor(n) < n ==> LeastFactor(n) * LeastFactor(n) <= n
  {
    LeastFactorDivides(n);
    LeastFactorPrime(n);
    if LeastFactor(n) < n {
      LeastFactorSquare(n);
    }
  }

  lemma LeastFactorPrime(n: int)
    requires n >= 2
    ensures IsPrime(LeastFactor(n))
  {
    LeastFactorDivides(n);
    var q := LeastFactor(n);
    forall d | 2 <= d < q ensures q % d != 0 {
      if q % d == 0 {
        ModTrans(n, q, d);
      }
    }
  }

  lemma LeastFactorSquare(n: int)
    requires n >= 2 && LeastFactor(n) < n
    ensures LeastFactor(n) * LeastFactor(n) <= n
  {
    LeastFactorDivides(n);
    var q := LeastFactor(n);
    Cofactor(n, q);
    var m := n / q;
    DividesByWitness(m, n, q);
    assert m >= 2;
    assert m >= q;
    MulMono(q, q, m);
  }

  /** A proper multiple's cofactor is smaller than it and positive. */
  lemma Cofactor(n: int, q: int)
    requires n >= 1 && q >= 2 && n % q == 0
    ensures 1 <= n / q < n && n == q * (n / q)
  {
    var m := n / q;
    assert n == q * m;
    assert n - m == (q - 1) * m;
  }

  /** `d * k + 1` leaves remainder 1. */
  lemma OneMore(d: int, k: int)
    requires d >= 2
    ensures (d * k + 1) % d == 1
  {
    DivModUnique(d * k + 1, d, k, 1);
  }

  /** Dividing by the smallest factor leaves no smaller factor. */
  lemma QuotientFactor(n: int)
    requires n >= 2
    ensures 1 <= n / LeastFactor(n) < n && n == LeastFactor(n) * (n / LeastFactor(n))
    ensures n / LeastFactor(n) >= 2 ==> LeastFactor(n / LeastFactor(n)) >= LeastFactor(n)
  {
    LeastFactorProps(n);
    var q := LeastFactor(n);
    var m := n / q;
    Cofactor(n, q);
    if m >= 2 {
      LeastFactorProps(m);
      DividesByWitness(m, n, q);
      ModTrans(n, m, LeastFactor(m));
    }
  }

  /** The prime factors of `n >= 1`, smallest first. */
  function Factorization(n: int): seq<int>
    requires n >= 1
    decreases n
  {
    if n == 1 then []
    else
      QuotientFactor(n);
      [LeastFactor(n)] + Factorization(n / LeastFactor(n))
  }

  function Product(s: seq<int>): int {
    if |s| == 0 then 1 else s[0] * Product(s[1..])
  }

  /** `factor(num)`: `[num]` for 0 and 1, the prime factors otherwise. */
  function FactorOf(num: nat): seq<int> {
    if num <= 1 then [num] else Factorization(num)
  }

  /** The factors are primes in ascending order whose product is `n`. */
  lemma {:induction false} FactorizationProps(n: int)
    requires n >= 1
    ensures forall i :: 0 <= i < |Factorization(n)| ==> IsPrime(Factorization(n)[i])
    ensures forall i, j :: 0 <= i < j < |Factorization(n)| ==> Factorization(n)[i] <= Factorization(n)[j]
    ensures Product(Factorization(n)) == n
    ensures n >= 2 ==> |Factorization(n)| > 0 && Factorization(n)[0] == LeastFactor(n)
    decreases n
  {
    if n >= 2 {
      QuotientFactor(n);
      LeastFactorProps(n);
      var q := LeastFactor(n);
      var m := n / q;
      FactorizationProps(m);
      assert Factorization(n) == [q] + Factorization(m);
      assert Factorization(n)[1..] == Factorization(m);
      assert n == q * m;
    }
  }

  /** The smallest remaining factor equals the prime tried: dividing it out extends the factor list. */
  lemma DivideOut(n: int, p: int)
    requires n >= 2 && LeastFactor(n) == p
    ensures Factorization(n) == [p] + Factorization(n / p)
  {
    QuotientFactor(n);
  }

  /* ------------------------------------------------------------------ */
  /*                       the trial-division test                      */
  /* ------------------------------------------------------------------ */

  /**
   * `next`'s test for `num` rejects it when a known prime `p` with
   * `p <= ceil(sqrt(num))`, that is `(p - 1)^2 < num`, divides it.
   */
  predicate Rejects(s: seq<int>, num: int) {
    exists j :: 0 <= j < |s| && (s[j] - 1) * (s[j] - 1) < num && s[j] != 0 && num % s[j] == 0
  }

  /** A prime up to the last one listed is listed. */
  lemma {:induction false} Listed(s: seq<int>, q: int)
    requires Consecutive(s) && IsPrime(q) && q <= s[|s| - 1]
    ensures exists j :: 0 <= j < |s| && s[j] == q
    decreases |s|
  {
    if q != s[|s| - 1] {
      assert |s| >= 2;
      assert NoPrimeBetween(s[|s| - 2], s[|s| - 1]);
      var t := s[..|s| - 1];
      assert Consecutive(t);
      Listed(t, q);
      var j :| 0 <= j < |t| && t[j] == q;
      assert s[j] == q;
    }
  }

  /**
   * Past the last listed prime, and with nothing prime in between, the
   * test rejects `num` exactly when `num` is composite.
   */
  lemma RejectsIffComposite(s: seq<int>, num: int)
    requires Consecutive(s) && s[|s| - 1] < num && NoPrimeBetween(s[|s| - 1], num)
    ensures Rejects(s, num) <==> !IsPrime(num)
  {
    if Rejects(s, num) {
      RejectedComposite(s, num);
    }
    if !IsPrime(num) {
      CompositeRejected(s, num);
    }
  }

  lemma RejectedComposite(s: seq<int>, num: int)
    requires Consecutive(s) && s[|s| - 1] < num && Rejects(s, num)
    ensures !IsPrime(num)
  {
    var j :| 0 <= j < |s| && (s[j] - 1) * (s[j] - 1) < num && s[j] != 0 && num % s[j] == 0;
    assert j < |s| - 1 ==> s[j] < s[|s| - 1];
    NotPrime(num, s[j]);
  }

  lemma CompositeRejected(s: seq<int>, num: int)
    requires Consecutive(s) && s[|s| - 1] < num && NoPrimeBetween(s[|s| - 1], num) && !IsPrime(num)
    ensures Rejects(s, num)
  {
    assert num >= 2;
    LeastFactorProps(num);
    var q := LeastFactor(num);
    Listed(s, q);
    var j :| 0 <= j < |s| && s[j] == q;
    assert (q - 1) * (q - 1) == q * q - 2 * q + 1;
  }

  lemma {:induction false} ProductDivisible(s: seq<int>, i: int)
    requires forall k :: 0 <= k < |s| ==> s[k] >= 1
    requires 0 <= i < |s|
    ensures Product(s) >= 1 && Product(s) % s[i] == 0
    decreases |s|
  {
    ProductPositive(s[1..]);
    if i == 0 {
      DividesByWitness(s[0], Product(s), Product(s[1..]));
    } else {
      ProductDivisible(s[1..], i - 1);
      var k := DividesWitness(s[i], Product(s[1..]));
      MulAssoc(s[0], s[i], k);
      DividesByWitness(s[i], Product(s), s[0] * k);
    }
  }

  lemma {:induction false} ProductPositive(s: seq<int>)
    requires forall k :: 0 <= k < |s| ==> s[k] >= 1
    ensures Product(s) >= 1
    decreases |s|
  {
    if |s| > 0 {
      ProductPositive(s[1..]);
    }
  }

  /** Euclid: one more than the product of the known primes is never rejected, and it lies past the last of them. */
  lemma EuclidBound(s: seq<int>)
    requires Consecutive(s)
    ensures s[|s| - 1] <= Product(s) && !Rejects(s, Product(s) + 1)
  {
    LastBelowProduct(s);
    forall j | 0 <= j < |s| ensures (Product(s) + 1) % s[j] == 1 {
      ProductPlusOne(s, j);
    }
  }

  lemma LastBelowProduct(s: seq<int>)
    requires Consecutive(s)
    ensures s[|s| - 1] <= Product(s)
  {
    var last := |s| - 1;
    ProductDivisible(s, last);
    var m := DividesWitness(s[last], Product(s));
    MulMono(s[last], 1, m);
  }

  lemma ProductPlusOne(s: seq<int>, j: int)
    requires Consecutive(s) && 0 <= j < |s|
    ensures (Product(s) + 1) % s[j] == 1
  {
    ProductDivisible(s, j);
    var k := DividesWitness(s[j], Product(s));
    OneMore(s[j], k);
  }

  /** `take_while(prime <= sqrt).any(num % prime == 0)` over the sorted primes. */
  method Rejected(s: seq<int>, num: int) returns (r: bool)
    requires Consecutive(s)
    ensures r <==> Rejects(s, num)
  {
    var j := 0;
    while j < |s| && (s[j] - 1) * (s[j] - 1) < num
      invariant 0 <= j <= |s|
      invariant forall i :: 0 <= i < j ==> num % s[i] != 0
    {
      if num % s[j] == 0 {
        return true;
      }
      j := j + 1;
    }
    forall i | j <= i < |s| ensures (s[i] - 1) * (s[i] - 1) >= num {
      SquareMono(s[j] - 1, s[i] - 1);
    }
    return false;
  }

  /**
   * The inner `loop` of `next`: counts up from the last known prime until
   * the test lets a number through, which is the next prime.
   */
  method NextPrimeAfter(s: seq<int>) returns (num: int)
    requires Consecutive(s)
    ensures s[|s| - 1] < num && IsPrime(num) && NoPrimeBetween(s[|s| - 1], num)
  {
    var last := s[|s| - 1];
    EuclidBound(s);
    num := last + 1;
    var rejected := Rejected(s, num);
    while rejected
      invariant last < num <= Product(s) + 1
      invariant NoPrimeBetween(last, num)
      invariant rejected <==> Rejects(s, num)
      decreases Product(s) + 1 - num
    {
      RejectsIffComposite(s, num);
      num := num + 1;
      rejected := Rejected(s, num);
    }
    RejectsIffComposite(s, num);
  }

  /** Appending the next prime keeps the list the first primes. */
  lemma Extend(s: seq<int>, num: int)
    requires Consecutive(s) && s[|s| - 1] < num && IsPrime(num) && NoPrimeBetween(s[|s| - 1], num)
    ensures Consecutive(s + [num])
  {
    var t := s + [num];
    forall i, j | 0 <= i < j < |t| ensures t[i] < t[j] {
      if j == |s| && i < |s| - 1 {
        assert s[i] < s[|s| - 1];
      }
    }
  }

  /** Prime numbers below a prime `q` just past `s[k - 1]` are not after it: `s[k]` is the least prime past `s[k - 1]`. */
  lemma AtLeastNext(s: seq<int>, k: int, x: int)
    requires Consecutive(s) && 0 <= k < |s| && IsPrime(x) && x > (if k == 0 then 1 else s[k - 1])
    ensures x >= s[k]
  {
    if k > 0 {
      assert NoPrimeBetween(s[k - 1], s[k]);
    }
  }

  /**
   * The inner loop of `factor`: divides `prime` out of `n` as often as it
   * goes, appending it to the factors each time.
   */
  method DivideOutAll(n: int, prime: int, factors: seq<int>) returns (m: int, fs: seq<int>)
    requires n >= 1 && prime >= 2 && (n >= 2 ==> LeastFactor(n) >= prime)
    ensures 1 <= m <= n && m % prime != 0
    ensures fs + Factorization(m) == factors + Factorization(n)
    ensures m >= 2 ==> LeastFactor(m) > prime
  {
    m, fs := n, factors;
    while m % prime == 0
      invariant 1 <= m <= n && fs + Factorization(m) == factors + Factorization(n)
      invariant m >= 2 ==> LeastFactor(m) >= prime
      decreases m
    {
      LeastFactorProps(m);
      DivideOut(m, prime);
      QuotientFactor(m);
      m := m / prime;
      fs := fs + [prime];
    }
    if m >= 2 {
      LeastFactorProps(m);
    }
  }

  /** The prime after the last one tried is at most the smallest factor left. */
  lemma NextBelowFactor(s: seq<int>, k: int, n: int)
    requires Consecutive(s) && 0 <= k < |s| && n >= 1
    requires n >= 2 ==> LeastFactor(n) > (if k == 0 then 1 else s[k - 1])
    ensures s[k] >= 2 && (n >= 2 ==> LeastFactor(n) >= s[k])
  {
    if n >= 2 {
      LeastFactorPrime(n);
      AtLeastNext(s, k, LeastFactor(n));
    }
  }

  /* ------------------------------------------------------------------ */
  /*                             the generator                          */
  /* ------------------------------------------------------------------ */

  class PrimeGen {
    /** The index in `primes` of the prime `next` returns. */
    var primeIdx: nat
    /** All the primes found so far. */
    var primes: seq<int>

    ghost predicate Valid()
      reads this
    {
      Consecutive(primes) && primeIdx < |primes|
    }

    /** `default`: only 2 is known and `next` starts there. */
    constructor ()
      ensures Valid() && primeIdx == 0 && primes == [2]
    {
      primeIdx := 0;
      primes := [2];
    }

    /** `reset`: the generator goes back to 2. */
    method Reset()
      requires Valid()
      modifies this
      ensures Valid() && primeIdx == 0 && primes == old(primes)
    {
      primeIdx := 0;
    }

    /**
     * `next`: finds primes until one lies past the cursor, then returns the
     * prime at the cursor and advances it.
     */
    method Next() returns (p: int)
      requires Valid()
      modifies this
      ensures Valid() && primeIdx == old(primeIdx) + 1
      ensures old(primes) <= primes
      ensures p == primes[old(primeIdx)]
    {
      while primeIdx + 1 >= |primes|
        invariant Valid() && primeIdx == old(primeIdx)
        invariant old(primes) <= primes
        decreases primeIdx + 2 - |primes|
      {
        var num := NextPrimeAfter(primes);
        Extend(primes, num);
        primes := primes + [num];
      }
      primeIdx := primeIdx + 1;
      p := primes[primeIdx - 1];
    }

    /**
     * One turn of `factor`'s outer loop: the next prime, divided out of `n`
     * as often as it goes.
     */
    method Round(n: int, factors: seq<int>, ghost below: int) returns (m: int, fs: seq<int>, ghost prime: int)
      requires Valid() && below == (if primeIdx == 0 then 1 else primes[primeIdx - 1])
      requires n >= 2 && LeastFactor(n) > below
      modifies this
      ensures Valid() && old(primes) <= primes && primeIdx == old(primeIdx) + 1
      ensures prime == primes[primeIdx - 1] && below < prime
      ensures 1 <= m <= n && fs + Factorization(m) == factors + Factorization(n)
      ensures m >= 2 ==> LeastFactor(m) > prime
    {
      ghost var k := primeIdx;
      var p := Next();
      NextBelowFactor(primes, k, n);
      m, fs := DivideOutAll(n, p, factors);
      prime := p;
    }

    /**
     * `factor`: 0 and 1 are returned as they are; otherwise each prime from
     * 2 on is divided out as often as it goes, and the cursor is put back.
     */
    method Factor(num: nat) returns (factors: seq<int>)
      requires Valid()
      modifies this
      ensures Valid() && primeIdx == old(primeIdx)
      ensures old(primes) <= primes
      ensures factors == FactorOf(num)
    {
      if num == 0 || num == 1 {
        return [num];
      }
      var storedIdx := primeIdx;
      factors := [];
      Reset();
      var n := num;
      ghost var below := 1;
      while n != 1
        invariant Valid() && old(primes) <= primes
        invariant below == (if primeIdx == 0 then 1 else primes[primeIdx - 1])
        invariant n >= 1 && factors + Factorization(n) == Factorization(num)
        invariant n >= 2 ==> LeastFactor(n) > below
        decreases n - below
      {
        ghost var prime;
        n, factors, prime := Round(n, factors, below);
        below := prime;
      }
      primeIdx := storedIdx;
    }
  }

  /* ------------------------------------------------------------------ */
  /*                               examples                             */
  /* ------------------------------------------------------------------ */

  /** No divisor of `n` in `lo..hi`, computed. */
  function NoFactorIn(n: int, lo: int, hi: int): bool
    requires lo >= 1
    decreases hi - lo
  {
    lo >= hi || (n % lo != 0 && NoFactorIn(n, lo + 1, hi))
  }

  lemma {:induction false} NoFactorInMeans(n: int, lo: int, hi: int)
    requires lo >= 1 && NoFactorIn(n, lo, hi)
    ensures forall e :: lo <= e < hi ==> n % e != 0
    decreases hi - lo
  {
    if lo < hi {
      NoFactorInMeans(n, lo + 1, hi);
    }
  }

  /** Trial division up to `d` with `d * d > n` shows `n` prime. */
  lemma PrimeByTrial(n: int, d: int)
    requires n >= 2 && d >= 2 && d * d > n && NoFactorIn(n, 2, d)
    ensures IsPrime(n)
  {
    NoFactorInMeans(n, 2, d);
    LeastFactorProps(n);
    var q := LeastFactor(n);
    if q < n {
      assert q >= d;
      SquareMono(d, q);
    }
  }

  /** The list of the first primes is fixed element by element: `s[i]` is the prime past `s[i - 1]`. */
  lemma NextIs(s: seq<int>, i: int, q: int)
    requires Consecutive(s) && 0 < i < |s| && s[i - 1] < q && IsPrime(q) && NoPrimeBetween(s[i - 1], q)
    ensures s[i] == q
  {
    assert NoPrimeBetween(s[i - 1], s[i]);
    assert s[i - 1] < s[i];
  }

  lemma SmallPrimes()
    ensures IsPrime(3) && IsPrime(5) && IsPrime(7) && IsPrime(11) && IsPrime(13)
    ensures IsPrime(17) && IsPrime(19) && IsPrime(23) && IsPrime(29)
  {
    PrimeByTrial(3, 2);
    PrimeByTrial(5, 3);
    PrimeByTrial(7, 3);
    PrimeByTrial(11, 4);
    PrimeByTrial(13, 4);
    PrimeByTrial(17, 5);
    PrimeByTrial(19, 5);
    PrimeByTrial(23, 5);
    PrimeByTrial(29, 6);
  }

  lemma SmallGaps()
    ensures NoPrimeBetween(2, 3) && NoPrimeBetween(3, 5) && NoPrimeBetween(5, 7) && NoPrimeBetween(7, 11)
    ensures NoPrimeBetween(11, 13) && NoPrimeBetween(13, 17) && NoPrimeBetween(17, 19)
    ensures NoPrimeBetween(19, 23) && NoPrimeBetween(23, 29)
  {
    forall n | 2 < n < 29 && n % 2 == 0 ensures !IsPrime(n) {
      NotPrime(n, 2);
    }
    NotPrime(9, 3);
    NotPrime(15, 3);
    NotPrime(21, 3);
    NotPrime(25, 5);
    NotPrime(27, 3);
  }

  /** The first ten primes listed are 2, 3, 5, ..., 29. */
  lemma FirstTenPrimes(s: seq<int>)
    requires Consecutive(s) && |s| >= 10
    ensures s[..10] == [2, 3, 5, 7, 11, 13, 17, 19, 23, 29]
  {
    SmallPrimes();
    SmallGaps();
    NextIs(s, 1, 3);
    NextIs(s, 2, 5);
    NextIs(s, 3, 7);
    NextIs(s, 4, 11);
    NextIs(s, 5, 13);
    NextIs(s, 6, 17);
    NextIs(s, 7, 19);
    NextIs(s, 8, 23);
    NextIs(s, 9, 29);
  }

  /** A fresh generator's first ten `next` calls yield 2, 3, 5, ..., 29. */
  method FirstTen() returns (ps: seq<int>)
    ensures ps == [2, 3, 5, 7, 11, 13, 17, 19, 23, 29]
  {
    var g := new PrimeGen();
    ps := [];
    for i := 0 to 10
      invariant g.Valid() && g.primeIdx == i && ps == g.primes[..i]
    {
      var p := g.Next();
      ps := ps + [p];
    }
    FirstTenPrimes(g.primes);
  }

  /** `factor` on 1234, 100, 1 and 0. */
  lemma FactorExamples()
    ensures FactorOf(1234) == [2, 617] && FactorOf(100) == [2, 2, 5, 5]
    ensures FactorOf(1) == [1] && FactorOf(0) == [0]
  {
    assert LeastFactor(1234) == 2;
    assert NoFactorIn(617, 20, 25);
    assert NoFactorIn(617, 15, 25);
    assert NoFactorIn(617, 10, 25);
    assert NoFactorIn(617, 5, 25);
    PrimeByTrial(617, 25);
    LeastFactorProps(617);
    assert Factorization(617) == [617];
    assert Factorization(1234) == [2] + Factorization(617);
    assert LeastFactor(100) == 2 && LeastFactor(50) == 2 && LeastFactor(25) == 5;
    PrimeByTrial(5, 3);
    LeastFactorProps(5);
    assert Factorization(5) == [5];
    assert Factorization(25) == [5] + Factorization(5);
    assert Factorization(50) == [2] + Factorization(25);
  }
}
