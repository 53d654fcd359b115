/**
 * The Baconian cipher (`src/cipher/monoalph/baconian.rs`). Encryption
 * writes each letter's code point as five binary digits, most significant
 * first, each as the uppercase letter of code point 0 or 1, and drops
 * every other character. Decryption keeps the letters of code point 0 or
 * 1, reads them five at a time into a code point and writes its uppercase
 * letter; a trailing group of fewer than five is dropped.
 */
module Baconian {
  import opened Wrappers
  import opened Permutations
  import opened Arith
  import opened LangAlphabets
  import opened Languages

  /* ------------------------------------------------------------------ */
  /*                              encryption                            */
  /* ------------------------------------------------------------------ */

  function Pow2(k: nat): (r: nat)
    ensures r > 0
  {
    if k == 0 then 1 else 2 * Pow2(k - 1)
  }

  /**
   * The digit at position `i` of the five, most significant first:
   * `(cp & (1 << (4 - i))) >> (4 - i)`, for a code point that is not negative.
   */
  function Bit(cp: nat, i: int): (r: int)
    requires 0 <= i < 5
    ensures 0 <= r < 2
  {
    (cp / Pow2(4 - i)) % 2
  }

  /** The five digits of `cp`. */
  function Bits(cp: nat): (r: seq<int>)
    ensures |r| == 5 && InRange(r, 2)
  {
    seq(5, i requires 0 <= i < 5 => Bit(cp, i))
  }

  /** The digits of every code point of `p`, in order. */
  function Encoded(p: seq<nat>): (r: seq<int>)
    ensures |r| == 5 * |p| && InRange(r, 2)
  {
    if p == [] then [] else Encoded(p[..|p| - 1]) + Bits(p[|p| - 1])
  }

  /** `StringToVec` as naturals, for a well-formed alphabet. */
  function Codes(a: LangAlphabet, msg: string): (r: seq<nat>)
    requires WF(a)
    ensures |r| == LetterCount(a, msg) && InRange(r, CpCount(a)) && r == StringToVec(a, msg)
  {
    StringToVecProps(a, msg);
    var p := StringToVec(a, msg);
    seq(|p|, i requires 0 <= i < |p| => p[i] as nat)
  }

  /** `encrypt`: `cp_to_upper` of each digit demands at least two code points. */
  function Encrypted(a: LangAlphabet, msg: string): (r: string)
    requires WF(a) && CpCount(a) >= 2
  {
    VecToString(a, Encoded(Codes(a, msg)))
  }

  /** One more character of the message: its digits, if it is a letter, come last. */
  lemma EncryptedSnoc(a: LangAlphabet, msg: string, i: int)
    requires WF(a) && CpCount(a) >= 2 && 0 <= i < |msg|
    ensures msg[..i + 1][..i] == msg[..i]
    ensures Encrypted(a, msg[..i + 1]) ==
      Encrypted(a, msg[..i]) + (if IsLetter(a, msg[i]) then VecToString(a, Bits(GetCp(a, msg[i]))) else [])
  {
    var s := msg[..i + 1];
    assert s[..i] == msg[..i];
    var p, q := Codes(a, msg[..i]), Codes(a, s);
    if IsLetter(a, msg[i]) {
      assert q == p + [GetCp(a, msg[i])];
      assert q[..|q| - 1] == p;
    } else {
      assert q == p;
    }
    var e := Encoded(q);
    assert VecToString(a, e) == VecToString(a, Encoded(p)) + VecToString(a, e[|Encoded(p)|..]);
  }

  /** The inner loop of `encrypt`: the five digits of `cp`, as letters, pushed onto `result`. */
  method PushDigits(a: LangAlphabet, cp: nat, result: string) returns (result': string)
    requires WF(a) && CpCount(a) >= 2
    ensures result' == result + VecToString(a, Bits(cp))
  {
    result' := result;
    for k := 0 to 5
      invariant result' == result + VecToString(a, Bits(cp)[..k])
    {
      assert Bits(cp)[..k + 1] == Bits(cp)[..k] + [Bit(cp, k)];
      result' := result' + [CpToUpper(a, Bit(cp, k))];
    }
    assert Bits(cp)[..5] == Bits(cp);
  }

  /** `encrypt`, pushing five letters for each letter of the message. */
  method Encrypt(a: LangAlphabet, msg: string) returns (result: string)
    requires WF(a) && CpCount(a) >= 2
    ensures result == Encrypted(a, msg)
  {
    result := [];
    for i := 0 to |msg|
      invariant result == Encrypted(a, msg[..i])
    {
      EncryptedSnoc(a, msg, i);
      var c := msg[i];
      if IsLetter(a, c) {
        result := PushDigits(a, GetCp(a, c), result);
      }
    }
    assert msg[..|msg|] == msg;
  }

  /* ------------------------------------------------------------------ */
  /*                              decryption                            */
  /* ------------------------------------------------------------------ */

  /** The code points below 2 of `p`, in order: those decryption reads. */
  function Small(p: seq<int>): (r: seq<int>)
    ensures |r| <= |p| && InRange(r, 2)
  {
    if p == [] then []
    else Small(p[..|p| - 1]) + (if 0 <= p[|p| - 1] < 2 then [p[|p| - 1]] else [])
  }

  /** The state of decryption: the code points written so far, and the group being read. */
  datatype Packing = Packing(values: seq<int>, value: int, count: int)

  /** One digit read: `value = (value << 1) | cp`, written out once five are read. */
  function Step(s: Packing, d: int): Packing {
    var v := s.value * 2 + d;
    if s.count + 1 >= 5 then Packing(s.values + [v], 0, 0) else Packing(s.values, v, s.count + 1)
  }

  /** The state after reading the digits `bits`. */
  function Packed(bits: seq<int>): Packing {
    if bits == [] then Packing([], 0, 0) else Step(Packed(bits[..|bits| - 1]), bits[|bits| - 1])
  }

  /**
   * `decrypt`: `None` where `cp_to_upper` fails, because some group of
   * five digits is a code point outside the alphabet.
   */
  function Decrypted(a: LangAlphabet, msg: string): (r: Option<string>)
    requires WF(a)
  {
    var vs := Packed(Small(StringToVec(a, msg))).values;
    if InRange(vs, CpCount(a)) then Some(VecToString(a, vs)) else None
  }

  /** The big-endian value of a run of digits. */
  function Pack(bits: seq<int>): int {
    if bits == [] then 0 else Pack(bits[..|bits| - 1]) * 2 + bits[|bits| - 1]
  }

  lemma PackedSnoc(bits: seq<int>, d: int)
    ensures Packed(bits + [d]) == Step(Packed(bits), d)
  {
    assert (bits + [d])[..|bits|] == bits;
  }

  /** Splitting the position of a group: `k = 5 q + r`. */
  lemma Group(k: int, q: int, r: int)
    requires k >= 0 && q == k / 5 && r == k % 5
    ensures k == 5 * q + r && 0 <= r < 5
    ensures r < 4 ==> (k + 1) / 5 == q && (k + 1) % 5 == r + 1
    ensures r == 4 ==> (k + 1) / 5 == q + 1 && (k + 1) % 5 == 0
  {
    if r < 4 {
      DivModUnique(k + 1, 5, q, r + 1);
    } else {
      DivModUnique(k + 1, 5, q + 1, 0);
    }
  }

  /**
   * Decrypting packs each complete group of five digits into one code
   * point and holds the digits of the trailing partial group, which is
   * never written out.
   */
  lemma {:induction false} PackedGroups(bits: seq<int>)
    ensures |Packed(bits).values| == |bits| / 5 && Packed(bits).count == |bits| % 5
    ensures forall j :: 0 <= j < |Packed(bits).values| ==> 5 * j + 5 <= |bits| && Packed(bits).values[j] == Pack(bits[5 * j..5 * j + 5])
    ensures Packed(bits).value == Pack(bits[|bits| - |bits| % 5..])
  {
    if bits != [] {
      var pre := bits[..|bits| - 1];
      PackedGroups(pre);
      assert bits == pre + [bits[|bits| - 1]];
      GroupStep(pre, bits[|bits| - 1], Packed(pre));
    }
  }

  /** The state `s` holds the complete groups of `bits` packed, and the trailing partial group's value. */
  predicate Grouped(bits: seq<int>, s: Packing) {
    && |s.values| == |bits| / 5 && s.count == |bits| % 5
    && (forall j :: 0 <= j < |s.values| ==> 5 * j + 5 <= |bits| && s.values[j] == Pack(bits[5 * j..5 * j + 5]))
    && s.value == Pack(bits[|bits| - |bits| % 5..])
  }

  /** Reading one more digit keeps the state grouped. */
  lemma GroupStep(pre: seq<int>, d: int, s: Packing)
    requires Grouped(pre, s)
    ensures Grouped(pre + [d], Step(s, d))
  {
    var bits, n := pre + [d], |pre|;
    Group(n, n / 5, n % 5);
    var start := n - n % 5;
    assert bits[start..] == pre[start..] + [d];
    assert bits[start..][..|bits[start..]| - 1] == pre[start..];
    assert Pack(bits[start..]) == s.value * 2 + d;
    forall j | 0 <= j < |s.values| ensures bits[5 * j..5 * j + 5] == pre[5 * j..5 * j + 5] {
    }
    if n % 5 == 4 {
      GroupFull(pre, d, s, start);
    }
  }

  /** A fifth digit completes its group, which is written out. */
  lemma GroupFull(pre: seq<int>, d: int, s: Packing, start: int)
    requires Grouped(pre, s) && |pre| % 5 == 4 && start == |pre| - 4
    requires (|pre| + 1) / 5 == |pre| / 5 + 1 && (|pre| + 1) % 5 == 0
    requires Pack((pre + [d])[start..]) == s.value * 2 + d
    requires forall j :: 0 <= j < |s.values| ==> (pre + [d])[5 * j..5 * j + 5] == pre[5 * j..5 * j + 5]
    ensures Grouped(pre + [d], Step(s, d))
  {
    var bits := pre + [d];
    assert 5 * |s.values| == start;
    assert bits[start..start + 5] == bits[start..];
    assert bits[|bits|..] == [];
  }

  /** Written code points are never taken back: reading more digits only adds to them. */
  lemma {:induction false} PackedGrows(bits: seq<int>, more: seq<int>)
    ensures |Packed(bits).values| <= |Packed(bits + more).values|
    ensures forall j :: 0 <= j < |Packed(bits).values| ==> Packed(bits + more).values[j] == Packed(bits).values[j]
  {
    if more != [] {
      var m := more[..|more| - 1];
      PackedGrows(bits, m);
      var x := more[|more| - 1];
      assert bits + more == (bits + m) + [x];
      PackedSnoc(bits + m, x);
    } else {
      assert bits + more == bits;
    }
  }

  /** One more character of the message: its code point, if it is a letter below 2, is read last. */
  lemma SmallSnoc(a: LangAlphabet, msg: string, i: int)
    requires WF(a) && 0 <= i < |msg|
    ensures msg[..i + 1][..i] == msg[..i]
    ensures Small(StringToVec(a, msg[..i + 1])) ==
      Small(StringToVec(a, msg[..i])) + (if IsLetter(a, msg[i]) && GetCp(a, msg[i]) < 2 then [GetCp(a, msg[i])] else [])
  {
    var s := msg[..i + 1];
    assert s[..i] == msg[..i];
    var p := StringToVec(a, msg[..i]);
    var q := StringToVec(a, s);
    if IsLetter(a, msg[i]) {
      assert q == p + [GetCp(a, msg[i])];
      assert q[..|q| - 1] == p;
    } else {
      assert q == p;
    }
  }

  /** Decryption has read the digits `bits`: it holds `value` and `count`, and has written `result`. */
  predicate Reading(a: LangAlphabet, bits: seq<int>, value: int, count: int, result: string) {
    var s := Packed(bits);
    s.value == value && s.count == count && InRange(s.values, CpCount(a)) && result == VecToString(a, s.values)
  }

  /** One digit read: `ok` is false where `cp_to_upper` fails on the completed group. */
  method ReadDigit(a: LangAlphabet, ghost bits: seq<int>, d: int, value: int, count: int, result: string)
      returns (ok: bool, value': int, count': int, result': string)
    requires WF(a) && Reading(a, bits, value, count, result)
    ensures ok ==> Reading(a, bits + [d], value', count', result')
    ensures !ok ==> !InRange(Packed(bits + [d]).values, CpCount(a))
  {
    PackedSnoc(bits, d);
    var v := value * 2 + d;
    ok, value', count', result' := true, v, count + 1, result;
    if count + 1 >= 5 {
      if 0 <= v < CpCount(a) {
        result' := result + [CpToUpper(a, v)];
        assert VecToString(a, Packed(bits).values + [v]) == result';
        value', count' := 0, 0;
      } else {
        assert Packed(bits + [d]).values[|Packed(bits).values|] == v;
        ok := false;
      }
    }
  }

  /** Once a written code point is outside the alphabet, the rest of the message cannot mend it. */
  lemma FailureStays(a: LangAlphabet, msg: string, i: int)
    requires WF(a) && 0 <= i <= |msg|
    requires !InRange(Packed(Small(StringToVec(a, msg[..i]))).values, CpCount(a))
    ensures !InRange(Packed(Small(StringToVec(a, msg))).values, CpCount(a))
  {
    assert msg == msg[..i] + msg[i..];
    StringToVecAppend(a, msg[..i], msg[i..]);
    SmallAppend(StringToVec(a, msg[..i]), StringToVec(a, msg[i..]));
    PackedGrows(Small(StringToVec(a, msg[..i])), Small(StringToVec(a, msg[i..])));
  }

  /** `decrypt`, reading the message once and writing a letter after every fifth digit. */
  method Decrypt(a: LangAlphabet, msg: string) returns (r: Option<string>)
    requires WF(a)
    ensures r == Decrypted(a, msg)
  {
    var result: string := [];
    var value := 0;
    var count := 0;
    ghost var bits: seq<int> := [];
    for i := 0 to |msg|
      invariant bits == Small(StringToVec(a, msg[..i]))
      invariant Reading(a, bits, value, count, result)
    {
      SmallSnoc(a, msg, i);
      var c := msg[i];
      if IsLetter(a, c) && GetCp(a, c) < 2 {
        var cp := GetCp(a, c);
        var ok;
        ok, value, count, result := ReadDigit(a, bits, cp, value, count, result);
        bits := bits + [cp];
        if !ok {
          FailureStays(a, msg, i + 1);
          return None;
        }
      }
    }
    assert msg[..|msg|] == msg;
    r := Some(result);
  }

  lemma {:induction false} SmallAppend(p: seq<int>, q: seq<int>)
    ensures Small(p + q) == Small(p) + Small(q)
  {
    if q != [] {
      var q' := q[..|q| - 1];
      assert (p + q)[..|p + q| - 1] == p + q';
      SmallAppend(p, q');
    } else {
      assert p + q == p;
    }
  }

  /* ------------------------------------------------------------------ */
  /*                              round trip                            */
  /* ------------------------------------------------------------------ */

  /** The five digits of a code point below 32, most significant first, make it up again. */
  lemma Digits(x: int)
    requires 0 <= x < 32
    ensures ((((x / 16 % 2) * 2 + x / 8 % 2) * 2 + x / 4 % 2) * 2 + x / 2 % 2) * 2 + x % 2 == x
  {
    var q1, q2, q3, q4 := x / 2, x / 4, x / 8, x / 16;
    DivModUnique(x, 2, q1, x % 2);
    DivModUnique(q1, 2, q1 / 2, q1 % 2);
    DivModUnique(x, 4, q1 / 2, x - 4 * (q1 / 2));
    DivModUnique(q2, 2, q2 / 2, q2 % 2);
    DivModUnique(x, 8, q2 / 2, x - 8 * (q2 / 2));
    DivModUnique(q3, 2, q3 / 2, q3 % 2);
    DivModUnique(x, 16, q3 / 2, x - 16 * (q3 / 2));
    assert q4 < 2;
  }

  /** The digits of `x`, one by one. */
  lemma BitsAt(x: nat)
    ensures Bits(x)[0] == x / 16 % 2 && Bits(x)[1] == x / 8 % 2 && Bits(x)[2] == x / 4 % 2
    ensures Bits(x)[3] == x / 2 % 2 && Bits(x)[4] == x % 2
  {
    assert Pow2(0) == 1 && Pow2(1) == 2 && Pow2(2) == 4 && Pow2(3) == 8 && Pow2(4) == 16;
  }

  /** Reading the five digits of `x` after a complete group writes out `x`. */
  lemma PackedBits(bits: seq<int>, x: nat)
    requires x < 32 && Packed(bits).value == 0 && Packed(bits).count == 0
    ensures Packed(bits + Bits(x)) == Packing(Packed(bits).values + [x], 0, 0)
  {
    var b := Bits(x);
    var s1 := bits + [b[0]];
    var s2 := s1 + [b[1]];
    var s3 := s2 + [b[2]];
    var s4 := s3 + [b[3]];
    var s5 := s4 + [b[4]];
    assert s5 == bits + b;
    PackedSnoc(bits, b[0]);
    PackedSnoc(s1, b[1]);
    PackedSnoc(s2, b[2]);
    PackedSnoc(s3, b[3]);
    PackedSnoc(s4, b[4]);
    BitsAt(x);
    Digits(x);
  }

  /** The digits of code points below 32 read back as those code points. */
  lemma {:induction false} PackedEncoded(p: seq<nat>)
    requires InRange(p, 32)
    ensures Packed(Encoded(p)) == Packing(p, 0, 0)
  {
    if p != [] {
      var q := p[..|p| - 1];
      PackedEncoded(q);
      PackedBits(Encoded(q), p[|p| - 1]);
      assert q + [p[|p| - 1]] == p;
    }
  }

  /** Digits that are all below 2 are all read. */
  lemma {:induction false} SmallAll(p: seq<int>)
    requires InRange(p, 2)
    ensures Small(p) == p
  {
    if p != [] {
      SmallAll(p[..|p| - 1]);
    }
  }

  /**
   * For an alphabet of 2 to 32 code points, decrypting the encryption
   * gives the message's letters in uppercase, every other character gone.
   */
  lemma RoundTrip(a: LangAlphabet, msg: string)
    requires WF(a) && 2 <= CpCount(a) <= 32
    ensures Decrypted(a, Encrypted(a, msg)) == Some(VecToString(a, StringToVec(a, msg)))
  {
    var p := Codes(a, msg);
    var e := Encoded(p);
    VecToStringRoundTrip(a, e);
    SmallAll(e);
    PackedEncoded(p);
  }
}
