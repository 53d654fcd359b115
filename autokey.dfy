/**
 * The autokey cipher (`src/cipher/polyalph/autokey.rs`): the first
 * `|keyword|` letters are shifted by the keyword, every later letter by the
 * plaintext letter `|keyword|` positions before it. Both directions keep
 * the last `|keyword|` plaintext code points in a ring buffer `pt_vec`
 * indexed by the letter count mod `|keyword|`.
 */
module Autokey {
  import opened Permutations
  import opened Arith
  import opened LangAlphabets
  import opened Languages
  import opened Letterwise
  import opened ClassicVigSquares
  import opened Keywords

  /** The key letter of letter `n`: the keyword first, then the plaintext itself. */
  function AutoKey(p: seq<int>, key: seq<int>, n: int): (k: int)
    requires KeyUsable(key) && InRange(p, 26) && 0 <= n < |p|
    ensures 0 <= k < 26
  {
    if n < |key| then key[n] else p[n - |key|]
  }

  /** Ciphertext code points: each plaintext code point shifted by its key letter. */
  function EncryptCps(p: seq<int>, key: seq<int>): (c: seq<int>)
    requires (|p| == 0 || KeyUsable(key)) && InRange(p, 26)
    ensures |c| == |p| && InRange(c, 26)
  {
    seq(|p|, n requires 0 <= n < |p| => Shift(p[n], AutoKey(p, key, n)))
  }

  /**
   * Plaintext code points, recovered left to right: each key letter is a
   * keyword letter or a plaintext code point recovered earlier.
   */
  function DecryptCps(c: seq<int>, key: seq<int>): (p: seq<int>)
    requires (|c| == 0 || KeyUsable(key)) && InRange(c, 26)
    ensures |p| == |c| && InRange(p, 26)
  {
    if c == [] then []
    else
      var n := |c| - 1;
      var q := DecryptCps(c[..n], key);
      q + [Unshift(if n < |key| then key[n] else q[n - |key|], c[n])]
  }

  /** Letter `n` of the ciphertext is `p[n]` plus the keyword letter, or plus `p[n - |key|]`, mod 26. */
  lemma EncryptCpsValues(p: seq<int>, key: seq<int>)
    requires KeyUsable(key) && InRange(p, 26)
    ensures forall n :: 0 <= n < |p| && n < |key| ==> EncryptCps(p, key)[n] == (p[n] + key[n]) % 26
    ensures forall n :: |key| <= n < |p| ==> EncryptCps(p, key)[n] == (p[n] + p[n - |key|]) % 26
  {
    forall n | 0 <= n < |p| ensures EncryptCps(p, key)[n] == (p[n] + AutoKey(p, key, n)) % 26 {
      ShiftMod(p[n], AutoKey(p, key, n));
    }
  }

  /** Encrypting a prefix gives the prefix of the ciphertext. */
  lemma EncryptPrefix(p: seq<int>, key: seq<int>, n: int)
    requires KeyUsable(key) && InRange(p, 26) && 0 <= n <= |p|
    ensures EncryptCps(p, key)[..n] == EncryptCps(p[..n], key)
  {
    forall m | 0 <= m < n ensures EncryptCps(p, key)[m] == EncryptCps(p[..n], key)[m] {
      assert AutoKey(p, key, m) == AutoKey(p[..n], key, m);
    }
  }

  /** Decryption recovers the plaintext code points. */
  lemma {:induction false} DecryptEncryptCps(p: seq<int>, key: seq<int>)
    requires KeyUsable(key) && InRange(p, 26)
    ensures DecryptCps(EncryptCps(p, key), key) == p
  {
    if p != [] {
      var n := |p| - 1;
      var c := EncryptCps(p, key);
      EncryptPrefix(p, key, n);
      assert c[..n] == EncryptCps(p[..n], key);
      DecryptEncryptCps(p[..n], key);
      var k := AutoKey(p, key, n);
      assert (if n < |key| then key[n] else p[..n][n - |key|]) == k;
      ShiftUnshift(k, p[n]);
      assert p == p[..n] + [p[n]];
    }
  }

  function Encrypted(a: LangAlphabet, key: seq<int>, msg: string): string
    requires TableauAlphabet(a) && (LetterCount(a, msg) == 0 || KeyUsable(key))
  {
    StringToVecProps(a, msg);
    Relettered(a, msg, EncryptCps(StringToVec(a, msg), key))
  }

  function Decrypted(a: LangAlphabet, key: seq<int>, msg: string): string
    requires TableauAlphabet(a) && (LetterCount(a, msg) == 0 || KeyUsable(key))
  {
    StringToVecProps(a, msg);
    Relettered(a, msg, DecryptCps(StringToVec(a, msg), key))
  }

  /** Decryption undoes encryption on a message of plain letters. */
  lemma RoundTrip(a: LangAlphabet, key: seq<int>, msg: string)
    requires TableauAlphabet(a) && KeyUsable(key) && PlainLetters(a, msg)
    ensures Decrypted(a, key, Encrypted(a, key, msg)) == msg
  {
    StringToVecProps(a, msg);
    var p := StringToVec(a, msg);
    var c := EncryptCps(p, key);
    ReletteredVec(a, msg, c);
    DecryptEncryptCps(p, key);
    ReletteredTwice(a, msg, c, p);
    ReletteredOwn(a, msg);
  }

  /* ------------------------------------------------------------------ */
  /*                            the ring buffer                         */
  /* ------------------------------------------------------------------ */

  /** Letter `n - len` used the slot letter `n` uses. */
  lemma SameSlot(n: int, len: int)
    requires 0 < len <= n
    ensures (n - len) % len == n % len
  {
    ModAddMultiple(n - len, 1, len);
  }

  /** Fewer than `len` letters apart, two letters use different slots. */
  lemma DistinctSlots(m: int, n: int, len: int)
    requires 0 < len && 0 <= m < n < m + len
    ensures m % len != n % len
  {
    var q, r := m / len, m % len;
    assert m == len * q + r;
    if r + (n - m) < len {
      DivModUnique(n, len, q, r + (n - m));
    } else {
      DivModUnique(n, len, q + 1, r + (n - m) - len);
    }
  }

  /** The buffer holds the code points of the last `|buf|` letters, each at its letter's slot. */
  ghost predicate Holds(buf: seq<int>, p: seq<int>, count: int)
    requires |buf| > 0 && 0 <= count <= |p|
  {
    forall m :: 0 <= m < count && count - |buf| <= m ==> buf[m % |buf|] == p[m]
  }

  /** Writing letter `count`'s code point at its slot keeps the last `|buf|` letters. */
  lemma HoldsStep(buf: seq<int>, p: seq<int>, count: int)
    requires |buf| > 0 && 0 <= count < |p| && Holds(buf, p, count)
    ensures count + 1 - |buf| <= count
    ensures Holds(buf[count % |buf| := p[count]], p, count + 1)
  {
    var len := |buf|;
    var buf' := buf[count % len := p[count]];
    forall m | 0 <= m < count + 1 && count + 1 - len <= m ensures buf'[m % len] == p[m] {
      if m < count {
        DistinctSlots(m, count, len);
      }
    }
  }

  /**
   * The ring buffer after `n` letters: it starts as `len` zeros, and letter
   * `m` writes its code point at slot `m mod len`.
   */
  ghost function Ring(p: seq<int>, n: int, len: int): (r: seq<int>)
    requires 0 < len && 0 <= n <= |p|
    ensures |r| == len
    decreases n
  {
    if n == 0 then seq(len, _ => 0) else Ring(p, n - 1, len)[Slot(n - 1, len) := p[n - 1]]
  }

  /** After `n` letters the buffer holds the last `len` of them, each at its slot. */
  lemma {:induction false} RingHolds(p: seq<int>, n: int, len: int)
    requires 0 < len && 0 <= n <= |p|
    ensures Holds(Ring(p, n, len), p, n)
    decreases n
  {
    if n > 0 {
      RingHolds(p, n - 1, len);
      SlotMod(n - 1, len);
      HoldsStep(Ring(p, n - 1, len), p, n - 1);
    }
  }

  /** Once the keyword is used up, the slot of letter `count` holds letter `count - |buf|`. */
  lemma HoldsEarlier(buf: seq<int>, p: seq<int>, count: int)
    requires |buf| > 0 && |buf| <= count < |p| && Holds(buf, p, count)
    ensures buf[count % |buf|] == p[count - |buf|]
  {
    SameSlot(count, |buf|);
    assert buf[(count - |buf|) % |buf|] == p[count - |buf|];
  }

  /** The key letter and lookup `encrypt` makes at letter `count` give ciphertext code point `count`. */
  lemma EncryptStep(sq: ClassicVigSquare, p: seq<int>, key: seq<int>, count: int, x: int, k: int)
    requires sq.Valid() && sq.Initialised() && KeyUsable(key) && InRange(p, 26)
    requires 0 <= count < |p| && x == p[count]
    requires k == (if count < |key| then key[count] else Ring(p, count, |key|)[Slot(count, |key|)])
    ensures k == AutoKey(p, key, count) && sq.Encrypt(x, k) == EncryptCps(p, key)[count]
  {
    if count >= |key| {
      SlotMod(count, |key|);
      RingHolds(p, count, |key|);
      HoldsEarlier(Ring(p, count, |key|), p, count);
    }
    Lookups(sq, x, k);
  }

  /** The key letter and lookup `decrypt` makes at letter `count` give plaintext code point `count`. */
  lemma DecryptStep(sq: ClassicVigSquare, c: seq<int>, key: seq<int>, count: int, x: int, k: int)
    requires sq.Valid() && sq.Initialised() && KeyUsable(key) && InRange(c, 26)
    requires 0 <= count < |c| && x == c[count]
    requires k == (if count < |key| then key[count] else Ring(DecryptCps(c, key), count, |key|)[Slot(count, |key|)])
    ensures 0 <= k < 26 && sq.Decrypt(k, x) == DecryptCps(c, key)[count]
  {
    if count >= |key| {
      SlotMod(count, |key|);
      RingHolds(DecryptCps(c, key), count, |key|);
      HoldsEarlier(Ring(DecryptCps(c, key), count, |key|), DecryptCps(c, key), count);
    }
    DecryptAt(c, key, count);
    Lookups(sq, k, x);
  }

  /**
   * One letter of `encrypt`, reading key letter `k`: `k` is in range, the
   * lookup extends the enciphered prefix, and writing the plaintext code
   * point at slot `count mod |key|` gives the buffer after one more letter.
   */
  lemma EncryptLetter(sq: ClassicVigSquare, a: LangAlphabet, key: seq<int>, msg: string, p: seq<int>, cps: seq<int>,
                      i: int, count: int, result: string, buf: seq<int>, k: int)
    requires sq.Valid() && sq.Initialised() && TableauAlphabet(a) && KeyUsable(key)
    requires p == StringToVec(a, msg) && |p| == LetterCount(a, msg) && InRange(p, 26) && cps == EncryptCps(p, key)
    requires 0 <= i < |msg| && IsLetter(a, msg[i]) && Rebuilt(a, msg, cps, i, count, result)
    requires count < |p| && buf == Ring(p, count, |key|)
    requires k == if count < |key| then key[count] else buf[Slot(count, |key|)]
    ensures 0 <= GetCp(a, msg[i]) < 26 && 0 <= k < 26
    ensures sq.Encrypt(GetCp(a, msg[i]), k) == cps[count]
    ensures Rebuilt(a, msg, cps, i + 1, count + 1, result + [UpdateCp(a, msg[i], sq.Encrypt(GetCp(a, msg[i]), k))])
    ensures buf[Slot(count, |key|) := GetCp(a, msg[i])] == Ring(p, count + 1, |key|)
  {
    RebuiltLetter(a, msg, cps, i, count, result);
    EncryptStep(sq, p, key, count, GetCp(a, msg[i]), k);
    RebuiltSnoc(a, msg, cps, i, count, result, UpdateCp(a, msg[i], sq.Encrypt(GetCp(a, msg[i]), k)));
  }

  /**
   * One letter of `decrypt`, reading key letter `k`: `k` is in range, the
   * recovered code point extends the deciphered prefix, and writing it at
   * slot `count mod |key|` gives the buffer after one more letter.
   */
  lemma DecryptLetter(sq: ClassicVigSquare, a: LangAlphabet, key: seq<int>, msg: string, c: seq<int>, cps: seq<int>,
                      i: int, count: int, result: string, buf: seq<int>, k: int)
    requires sq.Valid() && sq.Initialised() && TableauAlphabet(a) && KeyUsable(key)
    requires c == StringToVec(a, msg) && |c| == LetterCount(a, msg) && InRange(c, 26) && cps == DecryptCps(c, key)
    requires 0 <= i < |msg| && IsLetter(a, msg[i]) && Rebuilt(a, msg, cps, i, count, result)
    requires count < |cps| && buf == Ring(cps, count, |key|)
    requires k == if count < |key| then key[count] else buf[Slot(count, |key|)]
    ensures 0 <= GetCp(a, msg[i]) < 26 && 0 <= k < 26
    ensures sq.Decrypt(k, GetCp(a, msg[i])) == cps[count]
    ensures Rebuilt(a, msg, cps, i + 1, count + 1, result + [UpdateCp(a, msg[i], sq.Decrypt(k, GetCp(a, msg[i])))])
    ensures buf[Slot(count, |key|) := sq.Decrypt(k, GetCp(a, msg[i]))] == Ring(cps, count + 1, |key|)
  {
    RebuiltLetter(a, msg, cps, i, count, result);
    DecryptStep(sq, c, key, count, GetCp(a, msg[i]), k);
    RebuiltSnoc(a, msg, cps, i, count, result, UpdateCp(a, msg[i], sq.Decrypt(k, GetCp(a, msg[i]))));
  }

  class Autokey {
    const square: ClassicVigSquare
    const keyword: Keyword

    ghost predicate Valid()
      reads this, square, square.square, square.inverse
    {
      square.Valid() && square.Initialised()
    }

    /** `new`: the classic tableau and the keyword `[0]`. */
    constructor ()
      ensures Valid() && keyword.value == [0] && fresh(keyword)
    {
      square := new ClassicVigSquare();
      keyword := new Keyword();
    }

    /** `encrypt`: the buffer records each plaintext code point after it is used. */
    method Encrypt(a: LangAlphabet, msg: string) returns (result: string)
      requires Valid() && TableauAlphabet(a) && (LetterCount(a, msg) == 0 || KeyUsable(keyword.value))
      ensures result == Encrypted(a, keyword.value, msg)
      ensures LetterCount(a, msg) == 0 ==> result == msg
    {
      StringToVecProps(a, msg);
      ghost var p := StringToVec(a, msg);
      ghost var cps := EncryptCps(p, keyword.value);
      var len := keyword.Len();
      var ptVec := new int[len](_ => 0);
      var count := 0;
      result := [];
      RebuiltStart(a, msg, cps);
      for i := 0 to |msg|
        invariant Rebuilt(a, msg, cps, i, count, result)
        invariant ptVec.Length == len && (len > 0 ==> ptVec[..] == Ring(p, count, len))
      {
        count, result := EncryptChar(a, msg, p, cps, ptVec, i, count, result);
      }
      RebuiltDone(a, msg, cps, count, result);
    }

    /** One character of `encrypt`: a letter goes through `EncryptLetterAt`, anything else is copied. */
    method EncryptChar(a: LangAlphabet, msg: string, ghost p: seq<int>, ghost cps: seq<int>, ptVec: array<int>,
                       i: int, count: int, result: string) returns (count': int, result': string)
      requires Valid() && TableauAlphabet(a) && (LetterCount(a, msg) == 0 || KeyUsable(keyword.value))
      requires p == StringToVec(a, msg) && |p| == LetterCount(a, msg) && InRange(p, 26) && cps == EncryptCps(p, keyword.value)
      requires 0 <= i < |msg| && Rebuilt(a, msg, cps, i, count, result)
      requires ptVec.Length == |keyword.value| && (|keyword.value| > 0 ==> ptVec[..] == Ring(p, count, |keyword.value|))
      modifies ptVec
      ensures Rebuilt(a, msg, cps, i + 1, count', result')
      ensures |keyword.value| > 0 ==> ptVec[..] == Ring(p, count', |keyword.value|)
    {
      if IsLetter(a, msg[i]) {
        RebuiltAhead(a, msg, cps, i, count, result);
        result' := EncryptLetterAt(a, msg, p, cps, ptVec, i, count, result);
        count' := count + 1;
      } else {
        RebuiltSnoc(a, msg, cps, i, count, result, msg[i]);
        result' := result + [msg[i]];
        count' := count;
      }
    }

    /**
     * A letter of `encrypt`: it is shifted by the keyword letter or, once
     * the keyword is used up, by the plaintext code point in its slot of the
     * buffer, which then takes this letter's code point.
     */
    method EncryptLetterAt(a: LangAlphabet, msg: string, ghost p: seq<int>, ghost cps: seq<int>, ptVec: array<int>,
                           i: int, count: int, result: string) returns (result': string)
      requires Valid() && TableauAlphabet(a) && KeyUsable(keyword.value)
      requires p == StringToVec(a, msg) && |p| == LetterCount(a, msg) && InRange(p, 26) && cps == EncryptCps(p, keyword.value)
      requires 0 <= i < |msg| && IsLetter(a, msg[i]) && Rebuilt(a, msg, cps, i, count, result) && count < |p|
      requires ptVec.Length == |keyword.value| && ptVec[..] == Ring(p, count, |keyword.value|)
      modifies ptVec
      ensures Rebuilt(a, msg, cps, i + 1, count + 1, result')
      ensures ptVec[..] == Ring(p, count + 1, |keyword.value|)
    {
      var c := msg[i];
      var len := keyword.Len();
      var idx := Slot(count, len);
      var cp := GetCp(a, c);
      var k := if count < len then keyword.At(count) else ptVec[idx];
      EncryptLetter(square, a, keyword.value, msg, p, cps, i, count, result, ptVec[..], k);
      var newCp := square.Encrypt(cp, k);
      ghost var buf := ptVec[..];
      ptVec[idx] := cp;
      assert ptVec[..] == buf[idx := cp];
      result' := result + [UpdateCp(a, c, newCp)];
    }

    /** `decrypt`: the buffer records each recovered plaintext code point. */
    method Decrypt(a: LangAlphabet, msg: string) returns (result: string)
      requires Valid() && TableauAlphabet(a) && (LetterCount(a, msg) == 0 || KeyUsable(keyword.value))
      ensures result == Decrypted(a, keyword.value, msg)
      ensures LetterCount(a, msg) == 0 ==> result == msg
    {
      StringToVecProps(a, msg);
      ghost var c := StringToVec(a, msg);
      ghost var cps := DecryptCps(c, keyword.value);
      var len := keyword.Len();
      var ptVec := new int[len](_ => 0);
      var count := 0;
      result := [];
      RebuiltStart(a, msg, cps);
      for i := 0 to |msg|
        invariant Rebuilt(a, msg, cps, i, count, result)
        invariant ptVec.Length == len && (len > 0 ==> ptVec[..] == Ring(cps, count, len))
      {
        count, result := DecryptChar(a, msg, c, cps, ptVec, i, count, result);
      }
      RebuiltDone(a, msg, cps, count, result);
    }

    /** One character of `decrypt`: a letter goes through `DecryptLetterAt`, anything else is copied. */
    method DecryptChar(a: LangAlphabet, msg: string, ghost c: seq<int>, ghost cps: seq<int>, ptVec: array<int>,
                       i: int, count: int, result: string) returns (count': int, result': string)
      requires Valid() && TableauAlphabet(a) && (LetterCount(a, msg) == 0 || KeyUsable(keyword.value))
      requires c == StringToVec(a, msg) && |c| == LetterCount(a, msg) && InRange(c, 26) && cps == DecryptCps(c, keyword.value)
      requires 0 <= i < |msg| && Rebuilt(a, msg, cps, i, count, result)
      requires ptVec.Length == |keyword.value| && (|keyword.value| > 0 ==> ptVec[..] == Ring(cps, count, |keyword.value|))
      modifies ptVec
      ensures Rebuilt(a, msg, cps, i + 1, count', result')
      ensures |keyword.value| > 0 ==> ptVec[..] == Ring(cps, count', |keyword.value|)
    {
      if IsLetter(a, msg[i]) {
        RebuiltAhead(a, msg, cps, i, count, result);
        result' := DecryptLetterAt(a, msg, c, cps, ptVec, i, count, result);
        count' := count + 1;
      } else {
        RebuiltSnoc(a, msg, cps, i, count, result, msg[i]);
        result' := result + [msg[i]];
        count' := count;
      }
    }

    /**
     * A letter of `decrypt`: it is shifted back by the keyword letter or,
     * once the keyword is used up, by the recovered code point in its slot of
     * the buffer, which then takes the code point just recovered.
     */
    method DecryptLetterAt(a: LangAlphabet, msg: string, ghost c: seq<int>, ghost cps: seq<int>, ptVec: array<int>,
                           i: int, count: int, result: string) returns (result': string)
      requires Valid() && TableauAlphabet(a) && KeyUsable(keyword.value)
      requires c == StringToVec(a, msg) && |c| == LetterCount(a, msg) && InRange(c, 26) && cps == DecryptCps(c, keyword.value)
      requires 0 <= i < |msg| && IsLetter(a, msg[i]) && Rebuilt(a, msg, cps, i, count, result) && count < |cps|
      requires ptVec.Length == |keyword.value| && ptVec[..] == Ring(cps, count, |keyword.value|)
      modifies ptVec
      ensures Rebuilt(a, msg, cps, i + 1, count + 1, result')
      ensures ptVec[..] == Ring(cps, count + 1, |keyword.value|)
    {
      var ch := msg[i];
      var len := keyword.Len();
      var idx := Slot(count, len);
      var k := if count < len then keyword.At(count) else ptVec[idx];
      DecryptLetter(square, a, keyword.value, msg, c, cps, i, count, result, ptVec[..], k);
      var newCp := square.Decrypt(k, GetCp(a, ch));
      ghost var buf := ptVec[..];
      ptVec[idx] := newCp;
      assert ptVec[..] == buf[idx := newCp];
      result' := result + [UpdateCp(a, ch, newCp)];
    }

    /** `reset`: only the keyword changes, back to `[0]`. */
    method Reset()
      modifies keyword
      ensures keyword.value == [0]
    {
      keyword.Reset();
    }

    /** `randomize`: only the keyword changes, to the drawn letters. */
    method Randomize(length: nat, draws: seq<int>, cpCount: int)
      requires 3 <= length < 12 && |draws| == length && InRange(draws, cpCount)
      modifies keyword
      ensures keyword.value == draws
    {
      keyword.Randomize(length, draws, cpCount);
    }
  }

  /** Letter `n` of the recovered plaintext, in terms of the letters recovered before it. */
  lemma DecryptAt(c: seq<int>, key: seq<int>, n: int)
    requires KeyUsable(key) && InRange(c, 26) && 0 <= n < |c|
    ensures DecryptCps(c, key)[n] == Unshift(if n < |key| then key[n] else DecryptCps(c, key)[n - |key|], c[n])
  {
    DecryptPrefix(c, key, n + 1);
    assert c[..n + 1][..n] == c[..n];
    DecryptPrefix(c, key, n);
  }

  /** Decrypting a prefix gives the prefix of the plaintext. */
  lemma {:induction false} DecryptPrefix(c: seq<int>, key: seq<int>, n: int)
    requires KeyUsable(key) && InRange(c, 26) && 0 <= n <= |c|
    ensures DecryptCps(c, key)[..n] == DecryptCps(c[..n], key)
    decreases |c|
  {
    if n < |c| {
      var m := |c| - 1;
      assert DecryptCps(c, key)[..m] == DecryptCps(c[..m], key);
      DecryptPrefix(c[..m], key, n);
      assert c[..m][..n] == c[..n];
    } else {
      assert c[..n] == c;
    }
  }
}
