/**
 * The keyed Vigenère cipher (`src/cipher/polyalph/keyed_vig.rs`): the
 * classic Vigenère walk through a tableau whose rows rotate a mixed
 * alphabet `alph`.
 */
module KeyedVigenere {
  import opened Permutations
  import opened Util
  import opened LangAlphabets
  import opened Languages
  import opened Letterwise
  import opened ClassicVigSquares
  import opened KeyedVigSquares
  import opened Keywords

  /** Ciphertext code points: the entry of row `p[n]`, column `key[n mod |key|]`. */
  function EncryptCps(alph: seq<int>, p: seq<int>, key: seq<int>): (c: seq<int>)
    requires |alph| == 26 && IsPermutation(alph) && (|p| == 0 || KeyUsable(key)) && InRange(p, 26)
    ensures |c| == |p| && InRange(c, 26)
  {
    seq(|p|, n requires 0 <= n < |p| => alph[Shift(p[n], key[n % |key|])])
  }

  /** Plaintext code points: the position of `c[n]` in row `key[n mod |key|]`. */
  function DecryptCps(alph: seq<int>, c: seq<int>, key: seq<int>): (p: seq<int>)
    requires |alph| == 26 && IsPermutation(alph) && (|c| == 0 || KeyUsable(key)) && InRange(c, 26)
    ensures |p| == |c| && InRange(p, 26)
  {
    InvertedIsInverse(alph);
    seq(|c|, n requires 0 <= n < |c| => Unshift(key[n % |key|], Inverted(alph)[c[n]]))
  }

  /** Looking a ciphertext code point up in its key row gives back the plaintext one. */
  lemma DecryptEncryptCps(alph: seq<int>, p: seq<int>, key: seq<int>)
    requires |alph| == 26 && IsPermutation(alph) && KeyUsable(key) && InRange(p, 26)
    ensures DecryptCps(alph, EncryptCps(alph, p, key), key) == p
  {
    InvertedIsInverse(alph);
    forall n | 0 <= n < |p| ensures DecryptCps(alph, EncryptCps(alph, p, key), key)[n] == p[n] {
      var k := key[n % |key|];
      ShiftUnshift(k, p[n]);
      assert Inverted(alph)[alph[Shift(p[n], k)]] == Shift(p[n], k);
    }
  }

  function Encrypted(a: LangAlphabet, alph: seq<int>, key: seq<int>, msg: string): string
    requires TableauAlphabet(a) && |alph| == 26 && IsPermutation(alph) && (LetterCount(a, msg) == 0 || KeyUsable(key))
  {
    StringToVecProps(a, msg);
    Relettered(a, msg, EncryptCps(alph, StringToVec(a, msg), key))
  }

  function Decrypted(a: LangAlphabet, alph: seq<int>, key: seq<int>, msg: string): string
    requires TableauAlphabet(a) && |alph| == 26 && IsPermutation(alph) && (LetterCount(a, msg) == 0 || KeyUsable(key))
  {
    StringToVecProps(a, msg);
    Relettered(a, msg, DecryptCps(alph, StringToVec(a, msg), key))
  }

  /** Under any mixed alphabet, decryption undoes encryption on plain letters. */
  lemma RoundTrip(a: LangAlphabet, alph: seq<int>, key: seq<int>, msg: string)
    requires TableauAlphabet(a) && |alph| == 26 && IsPermutation(alph) && KeyUsable(key) && PlainLetters(a, msg)
    ensures Decrypted(a, alph, key, Encrypted(a, alph, key, msg)) == msg
  {
    StringToVecProps(a, msg);
    var p := StringToVec(a, msg);
    var c := EncryptCps(alph, p, key);
    ReletteredVec(a, msg, c);
    DecryptEncryptCps(alph, p, key);
    ReletteredTwice(a, msg, c, p);
    ReletteredOwn(a, msg);
  }

  /** The lookups of a keyed tableau, as the mixed alphabet and its inverse. */
  lemma KeyedCells(sq: KeyedVigSquare, x: int, y: int)
    requires sq.Valid() && sq.Keyed() && 0 <= x < 26 && 0 <= y < 26
    ensures sq.Encrypt(x, y) == sq.alphabet[Shift(x, y)]
    ensures 0 <= Inverted(sq.alphabet)[y] < 26 && sq.Decrypt(x, y) == Unshift(x, Inverted(sq.alphabet)[y])
  {
    InvertedIsInverse(sq.alphabet);
    var j := Inverted(sq.alphabet)[y];
    assert sq.alphabet[j] == y;
  }

  /** The tableau lookups at letter `n` give the `n`-th code point of either direction. */
  lemma LookupStep(sq: KeyedVigSquare, p: seq<int>, key: seq<int>, n: int, x: int, k: int)
    requires sq.Valid() && sq.Keyed() && KeyUsable(key) && InRange(p, 26)
    requires 0 <= n < |p| && x == p[n] && k == key[Slot(n, |key|)]
    ensures sq.Encrypt(x, k) == EncryptCps(sq.alphabet, p, key)[n]
    ensures sq.Decrypt(k, x) == DecryptCps(sq.alphabet, p, key)[n]
  {
    SlotMod(n, |key|);
    KeyedCells(sq, x, k);
    KeyedCells(sq, k, x);
  }

  /** A letter of `encrypt` takes the keyed tableau entry for the next keyword letter and extends the enciphered prefix. */
  lemma EncryptStep(sq: KeyedVigSquare, a: LangAlphabet, key: seq<int>, msg: string, cps: seq<int>, i: int, count: int, result: string, k: int)
    requires sq.Valid() && sq.Keyed() && TableauAlphabet(a) && KeyUsable(key)
    requires |StringToVec(a, msg)| == LetterCount(a, msg) && InRange(StringToVec(a, msg), 26)
    requires cps == EncryptCps(sq.alphabet, StringToVec(a, msg), key)
    requires 0 <= i < |msg| && IsLetter(a, msg[i]) && Rebuilt(a, msg, cps, i, count, result)
    requires k == key[Slot(count, |key|)]
    ensures 0 <= GetCp(a, msg[i]) < 26 && 0 <= k < 26
    ensures count < |cps| && sq.Encrypt(GetCp(a, msg[i]), k) == cps[count]
    ensures Rebuilt(a, msg, cps, i + 1, count + 1, result + [UpdateCp(a, msg[i], sq.Encrypt(GetCp(a, msg[i]), k))])
  {
    RebuiltLetter(a, msg, cps, i, count, result);
    LookupStep(sq, StringToVec(a, msg), key, count, GetCp(a, msg[i]), k);
    RebuiltSnoc(a, msg, cps, i, count, result, UpdateCp(a, msg[i], sq.Encrypt(GetCp(a, msg[i]), k)));
  }

  /** A letter of `decrypt` takes the keyed inverse entry for the next keyword letter and extends the deciphered prefix. */
  lemma DecryptStep(sq: KeyedVigSquare, a: LangAlphabet, key: seq<int>, msg: string, cps: seq<int>, i: int, count: int, result: string, k: int)
    requires sq.Valid() && sq.Keyed() && TableauAlphabet(a) && KeyUsable(key)
    requires |StringToVec(a, msg)| == LetterCount(a, msg) && InRange(StringToVec(a, msg), 26)
    requires cps == DecryptCps(sq.alphabet, StringToVec(a, msg), key)
    requires 0 <= i < |msg| && IsLetter(a, msg[i]) && Rebuilt(a, msg, cps, i, count, result)
    requires k == key[Slot(count, |key|)]
    ensures 0 <= GetCp(a, msg[i]) < 26 && 0 <= k < 26
    ensures count < |cps| && sq.Decrypt(k, GetCp(a, msg[i])) == cps[count]
    ensures Rebuilt(a, msg, cps, i + 1, count + 1, result + [UpdateCp(a, msg[i], sq.Decrypt(k, GetCp(a, msg[i])))])
  {
    RebuiltLetter(a, msg, cps, i, count, result);
    LookupStep(sq, StringToVec(a, msg), key, count, GetCp(a, msg[i]), k);
    RebuiltSnoc(a, msg, cps, i, count, result, UpdateCp(a, msg[i], sq.Decrypt(k, GetCp(a, msg[i]))));
  }

  class KeyedVigenere {
    const square: KeyedVigSquare
    const keyword: Keyword

    ghost predicate Valid()
      reads this, square, square.square, square.inverse
    {
      square.Valid() && square.Keyed()
    }

    /** `new`: the keyed tableau over the plain alphabet and the keyword `[0]`. */
    constructor ()
      ensures Valid() && square.alphabet == Identity(26) && keyword.value == [0] && fresh(keyword)
    {
      square := new KeyedVigSquare();
      keyword := new Keyword();
    }

    /** `encrypt`. */
    method Encrypt(a: LangAlphabet, msg: string) returns (result: string)
      requires Valid() && TableauAlphabet(a) && (LetterCount(a, msg) == 0 || KeyUsable(keyword.value))
      ensures result == Encrypted(a, square.alphabet, keyword.value, msg)
      ensures LetterCount(a, msg) == 0 ==> result == msg
    {
      StringToVecProps(a, msg);
      ghost var cps := EncryptCps(square.alphabet, StringToVec(a, msg), keyword.value);
      var count := 0;
      result := [];
      RebuiltStart(a, msg, cps);
      for i := 0 to |msg|
        invariant Rebuilt(a, msg, cps, i, count, result)
      {
        count, result := EncryptChar(a, msg, cps, i, count, result);
      }
      RebuiltDone(a, msg, cps, count, result);
    }

    /** One character of `encrypt`: a letter goes through the keyed tableau under the next keyword letter, anything else is copied. */
    method EncryptChar(a: LangAlphabet, msg: string, ghost cps: seq<int>, i: int, count: int, result: string) returns (count': int, result': string)
      requires Valid() && TableauAlphabet(a) && (LetterCount(a, msg) == 0 || KeyUsable(keyword.value))
      requires |StringToVec(a, msg)| == LetterCount(a, msg) && InRange(StringToVec(a, msg), 26)
      requires cps == EncryptCps(square.alphabet, StringToVec(a, msg), keyword.value)
      requires 0 <= i < |msg| && Rebuilt(a, msg, cps, i, count, result)
      ensures Rebuilt(a, msg, cps, i + 1, count', result')
    {
      if IsLetter(a, msg[i]) {
        RebuiltAhead(a, msg, cps, i, count, result);
        count', result' := EncryptLetter(a, msg, cps, i, count, result);
      } else {
        RebuiltSnoc(a, msg, cps, i, count, result, msg[i]);
        result' := result + [msg[i]];
        count' := count;
      }
    }

    /** A letter: its code point goes through the keyed tableau under the keyword letter in turn. */
    method EncryptLetter(a: LangAlphabet, msg: string, ghost cps: seq<int>, i: int, count: int, result: string) returns (count': int, result': string)
      requires Valid() && TableauAlphabet(a) && KeyUsable(keyword.value)
      requires |StringToVec(a, msg)| == LetterCount(a, msg) && InRange(StringToVec(a, msg), 26)
      requires cps == EncryptCps(square.alphabet, StringToVec(a, msg), keyword.value)
      requires 0 <= i < |msg| && IsLetter(a, msg[i]) && Rebuilt(a, msg, cps, i, count, result)
      ensures Rebuilt(a, msg, cps, i + 1, count', result')
    {
      var k := keyword.At(Slot(count, keyword.Len()));
      EncryptStep(square, a, keyword.value, msg, cps, i, count, result, k);
      var newCp := square.Encrypt(GetCp(a, msg[i]), k);
      result' := result + [UpdateCp(a, msg[i], newCp)];
      count' := count + 1;
    }

    /** `decrypt`. */
    method Decrypt(a: LangAlphabet, msg: string) returns (result: string)
      requires Valid() && TableauAlphabet(a) && (LetterCount(a, msg) == 0 || KeyUsable(keyword.value))
      ensures result == Decrypted(a, square.alphabet, keyword.value, msg)
      ensures LetterCount(a, msg) == 0 ==> result == msg
    {
      StringToVecProps(a, msg);
      ghost var cps := DecryptCps(square.alphabet, StringToVec(a, msg), keyword.value);
      var count := 0;
      result := [];
      RebuiltStart(a, msg, cps);
      for i := 0 to |msg|
        invariant Rebuilt(a, msg, cps, i, count, result)
      {
        count, result := DecryptChar(a, msg, cps, i, count, result);
      }
      RebuiltDone(a, msg, cps, count, result);
    }

    /** One character of `decrypt`: a letter goes back through the keyed tableau under the next keyword letter, anything else is copied. */
    method DecryptChar(a: LangAlphabet, msg: string, ghost cps: seq<int>, i: int, count: int, result: string) returns (count': int, result': string)
      requires Valid() && TableauAlphabet(a) && (LetterCount(a, msg) == 0 || KeyUsable(keyword.value))
      requires |StringToVec(a, msg)| == LetterCount(a, msg) && InRange(StringToVec(a, msg), 26)
      requires cps == DecryptCps(square.alphabet, StringToVec(a, msg), keyword.value)
      requires 0 <= i < |msg| && Rebuilt(a, msg, cps, i, count, result)
      ensures Rebuilt(a, msg, cps, i + 1, count', result')
    {
      if IsLetter(a, msg[i]) {
        RebuiltAhead(a, msg, cps, i, count, result);
        count', result' := DecryptLetter(a, msg, cps, i, count, result);
      } else {
        RebuiltSnoc(a, msg, cps, i, count, result, msg[i]);
        result' := result + [msg[i]];
        count' := count;
      }
    }

    /** A letter: its code point goes back through the keyed tableau under the keyword letter in turn. */
    method DecryptLetter(a: LangAlphabet, msg: string, ghost cps: seq<int>, i: int, count: int, result: string) returns (count': int, result': string)
      requires Valid() && TableauAlphabet(a) && KeyUsable(keyword.value)
      requires |StringToVec(a, msg)| == LetterCount(a, msg) && InRange(StringToVec(a, msg), 26)
      requires cps == DecryptCps(square.alphabet, StringToVec(a, msg), keyword.value)
      requires 0 <= i < |msg| && IsLetter(a, msg[i]) && Rebuilt(a, msg, cps, i, count, result)
      ensures Rebuilt(a, msg, cps, i + 1, count', result')
    {
      var k := keyword.At(Slot(count, keyword.Len()));
      DecryptStep(square, a, keyword.value, msg, cps, i, count, result, k);
      var newCp := square.Decrypt(k, GetCp(a, msg[i]));
      result' := result + [UpdateCp(a, msg[i], newCp)];
      count' := count + 1;
    }

    /** `reset`: only the keyword changes, back to `[0]`. */
    method Reset()
      modifies keyword
      ensures keyword.value == [0]
    {
      keyword.Reset();
    }

    /** `randomize`: only the keyword changes, to the drawn letters. */
    method Randomize(length: nat, draws: seq<int>, cpCount: int)
      requires 3 <= length < 12 && |draws| == length && InRange(draws, cpCount)
      modifies keyword
      ensures keyword.value == draws
    {
      keyword.Randomize(length, draws, cpCount);
    }
  }
}
