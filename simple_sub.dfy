/**
 * Simple substitution (`src/cipher/monoalph/simple_sub.rs`): every letter
 * is replaced by the letter, in the same case, whose code point the key
 * alphabet gives for its own; decryption looks the code point up in the
 * key's inverse. Every other character is copied.
 */
module SimpleSub {
  import opened Permutations
  import opened Util
  import opened LangAlphabets
  import opened Languages
  import opened Letterwise
  import opened AlphabetKey

  /** A key that gives each of the `n` code points a code point. */
  predicate Fits(key: seq<int>, n: int) {
    |key| == n && InRange(key, n)
  }

  /** `key[cp]` for each code point of `p`. */
  function SubstitutedCps(p: seq<int>, key: seq<int>, n: int): (r: seq<int>)
    requires InRange(p, n) && Fits(key, n)
    ensures |r| == |p| && InRange(r, n)
  {
    seq(|p|, i requires 0 <= i < |p| => key[p[i]])
  }

  /** `encrypt` with the key alphabet's `value`. */
  function Encrypted(a: LangAlphabet, value: seq<int>, msg: string): string
    requires WF(a) && Fits(value, CpCount(a))
  {
    StringToVecProps(a, msg);
    Relettered(a, msg, SubstitutedCps(StringToVec(a, msg), value, CpCount(a)))
  }

  /** `decrypt`: the same substitution, with the key alphabet's `inverse`. */
  function Decrypted(a: LangAlphabet, inverse: seq<int>, msg: string): string
    requires WF(a) && Fits(inverse, CpCount(a))
  {
    Encrypted(a, inverse, msg)
  }

  /**
   * Letter by letter: a non-letter is copied, and a letter becomes the
   * letter of the same case at the key's code point for its own.
   */
  lemma SubstitutedLetters(a: LangAlphabet, key: seq<int>, msg: string)
    requires WF(a) && Fits(key, CpCount(a))
    ensures |Encrypted(a, key, msg)| == |msg|
    ensures forall i :: 0 <= i < |msg| && !IsLetter(a, msg[i]) ==> Encrypted(a, key, msg)[i] == msg[i]
    ensures forall i :: 0 <= i < |msg| && IsLetter(a, msg[i]) ==>
      IsLetter(a, Encrypted(a, key, msg)[i]) && (IsUpper(a, Encrypted(a, key, msg)[i]) <==> IsUpper(a, msg[i]))
      && GetCp(a, Encrypted(a, key, msg)[i]) == key[GetCp(a, msg[i])]
  {
    StringToVecProps(a, msg);
    var p := StringToVec(a, msg);
    var n := CpCount(a);
    ReletteredPointwise(a, msg, SubstitutedCps(p, key, n), x => if 0 <= x < |key| then key[x] else 0);
  }

  /** A permutation fits an alphabet of its own length, and so does its inverse. */
  lemma PermutationFits(value: seq<int>)
    requires IsPermutation(value)
    ensures Fits(value, |value|) && Fits(Inverted(value), |value|)
  {
    InvertedIsInverse(value);
  }

  /** Substituting by a permutation and then by its inverse, or the other way round, gives back the code points. */
  lemma SubstitutedBack(p: seq<int>, value: seq<int>)
    requires IsPermutation(value) && InRange(p, |value|)
    ensures Fits(Inverted(value), |value|)
    ensures SubstitutedCps(SubstitutedCps(p, value, |value|), Inverted(value), |value|) == p
    ensures SubstitutedCps(SubstitutedCps(p, Inverted(value), |value|), value, |value|) == p
  {
    InvertedIsInverse(value);
    var n := |value|;
    var inv := Inverted(value);
    var q, r := SubstitutedCps(p, value, n), SubstitutedCps(p, inv, n);
    forall i | 0 <= i < |p| ensures SubstitutedCps(q, inv, n)[i] == p[i] && SubstitutedCps(r, value, n)[i] == p[i] {
      assert q[i] == value[p[i]] && r[i] == inv[p[i]];
    }
  }

  /**
   * With a permutation as the key's value and its inverse as the key's
   * inverse, decryption undoes encryption and encryption undoes
   * decryption, on a message of plain letters.
   */
  lemma RoundTrip(a: LangAlphabet, value: seq<int>, msg: string)
    requires WF(a) && PlainLetters(a, msg) && IsPermutation(value) && |value| == CpCount(a)
    ensures Fits(value, CpCount(a)) && Fits(Inverted(value), CpCount(a))
    ensures Decrypted(a, Inverted(value), Encrypted(a, value, msg)) == msg
    ensures Encrypted(a, value, Decrypted(a, Inverted(value), msg)) == msg
  {
    PermutationFits(value);
    StringToVecProps(a, msg);
    var p := StringToVec(a, msg);
    var n := CpCount(a);
    var inv := Inverted(value);
    ReletteredUndone(a, msg, SubstitutedCps(p, value, n));
    ReletteredUndone(a, msg, SubstitutedCps(p, inv, n));
    SubstitutedBack(p, value);
  }

  /** The key alphabet itself: its own value and inverse give the round trip. */
  lemma KeyRoundTrip(a: LangAlphabet, k: Alphabet, msg: string)
    requires WF(a) && PlainLetters(a, msg) && k.Valid() && |k.value| == CpCount(a)
    ensures Fits(k.value, CpCount(a)) && Fits(k.inverse, CpCount(a))
    ensures Decrypted(a, k.inverse, Encrypted(a, k.value, msg)) == msg
    ensures Encrypted(a, k.value, Decrypted(a, k.inverse, msg)) == msg
  {
    RoundTrip(a, k.value, msg);
  }

  /** With the key `reset` leaves, all zeros, every letter encrypts to the letter of code point 0. */
  lemma ResetKeyCollapses(a: LangAlphabet, msg: string)
    requires WF(a) && CpCount(a) > 0
    ensures Fits(seq(CpCount(a), _ => 0), CpCount(a))
    ensures forall i :: 0 <= i < |msg| && IsLetter(a, msg[i]) ==>
      IsLetter(a, Encrypted(a, seq(CpCount(a), _ => 0), msg)[i]) && GetCp(a, Encrypted(a, seq(CpCount(a), _ => 0), msg)[i]) == 0
  {
    SubstitutedLetters(a, seq(CpCount(a), _ => 0), msg);
  }

  /** With no key letters, `fill_alphabet_from_start` counts up from 0. */
  lemma {:induction false} MissingFromNothing(hi: nat)
    ensures Missing([], 0, hi) == Identity(hi)
  {
    if hi > 0 {
      MissingFromNothing(hi - 1);
    }
  }

  /** The alphabet an empty key gives is the identity. */
  lemma EmptyKeyIdentity(n: nat)
    ensures KeyedFromStart([], n) == Identity(n)
  {
    MissingFromNothing(n);
    assert Dedup([]) == [];
  }

  class SimpleSubstitution {
    const alphabet: Alphabet

    /**
     * `new`: a fresh key alphabet for `n` code points, built from an empty
     * key, so the identity.
     */
    constructor (n: nat)
      ensures fresh(alphabet) && alphabet.Valid() && alphabet.value == Identity(n)
    {
      alphabet := new Alphabet.FromKey([], n);
      EmptyKeyIdentity(n);
    }

    /** `reset`: the key alphabet is reset to all zeros for `n` code points. */
    method Reset(n: nat)
      modifies alphabet
      ensures alphabet.value == seq(n, _ => 0) && alphabet.inverse == Inverted(alphabet.value)
    {
      alphabet.Reset(n);
    }

    /** `randomize`: the key alphabet is shuffled by the draws `picks`. */
    method Randomize(picks: seq<int>)
      modifies alphabet
      requires |picks| == |alphabet.value| && InRange(picks, |alphabet.value|)
      requires InRange(alphabet.value, |alphabet.value|)
      ensures alphabet.value == Shuffled(old(alphabet.value), picks)
      ensures multiset(alphabet.value) == multiset(old(alphabet.value))
      ensures InRange(alphabet.value, |alphabet.value|) && alphabet.inverse == Inverted(alphabet.value)
      ensures old(alphabet.Valid()) ==> alphabet.Valid()
    {
      alphabet.Randomize(picks);
    }
  }
}
