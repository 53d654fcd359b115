/**
 * The substitution alphabet key (`src/key/alphabet.rs`): a permutation
 * `value` of the code points and its `inverse`, rebuilt whenever `value`
 * changes.
 */
module AlphabetKey {
  import opened Permutations
  import opened Util
  import opened LangAlphabets
  import opened Languages

  /** The identity permutation is its own inverse. */
  lemma IdentitySelfInverse(n: nat)
    ensures Inverted(Identity(n)) == Identity(n)
  {
    IdentityIsPermutation(n);
    InvertedIsInverse(Identity(n));
  }

  /** The keyed alphabet a string key gives: its letters' code points, keyed from the start. */
  function KeyedFromString(a: LangAlphabet, s: string): (r: seq<int>)
    requires WF(a)
    ensures |r| == CpCount(a) && IsPermutation(r)
  {
    StringToVecProps(a, s);
    KeyedFromStart(StringToVec(a, s), CpCount(a))
  }

  /** Values in range stay in range under any rearrangement. */
  lemma MultisetInRange(s: seq<int>, t: seq<int>, n: int)
    requires multiset(s) == multiset(t) && InRange(s, n)
    ensures InRange(t, n)
  {
    forall i | 0 <= i < |t| ensures 0 <= t[i] < n {
      assert t[i] in multiset(t);
      assert t[i] in s;
    }
  }

  class Alphabet {
    var value: seq<int>
    var inverse: seq<int>

    /** `value` is a permutation and `inverse` undoes it. */
    predicate Valid()
      reads this
    {
      IsPermutation(value) && inverse == Inverted(value)
    }

    /** `encrypt`: the vector index demands a letter inside the alphabet. */
    function Encrypt(letter: int): int
      reads this
      requires 0 <= letter < |value|
    {
      value[letter]
    }

    /** `decrypt`. */
    function Decrypt(letter: int): int
      reads this
      requires 0 <= letter < |inverse|
    {
      inverse[letter]
    }

    /** `new` with a code-point key: the keyed alphabet from the start. */
    constructor FromKey(key: seq<int>, n: nat)
      requires InRange(key, n)
      ensures value == KeyedFromStart(key, n) && inverse == Inverted(value)
      ensures Valid() && |value| == n
    {
      var v := FillAlphabetFromStart(key, n);
      var inv := Invert(v);
      value := v;
      inverse := inv;
    }

    /** `new` with a string key: its letters' code points, keyed from the start. */
    constructor FromString(a: LangAlphabet, s: string)
      requires WF(a)
      ensures value == KeyedFromString(a, s) && inverse == Inverted(value)
      ensures Valid() && |value| == CpCount(a)
    {
      StringToVecProps(a, s);
      var v := FillAlphabetFromStart(StringToVec(a, s), CpCount(a));
      var inv := Invert(v);
      value := v;
      inverse := inv;
    }

    /** `identity`: `value` and `inverse` are both `0..n`. */
    constructor Identity(n: nat)
      ensures value == Permutations.Identity(n) && inverse == Permutations.Identity(n)
      ensures Valid()
    {
      value := Permutations.Identity(n);
      inverse := Permutations.Identity(n);
      IdentitySelfInverse(n);
      IdentityIsPermutation(n);
    }

    /** `set` with a code-point key. */
    method Set(key: seq<int>, n: nat)
      modifies this
      requires InRange(key, n)
      ensures value == KeyedFromStart(key, n) && inverse == Inverted(value)
      ensures Valid() && |value| == n
    {
      value := FillAlphabetFromStart(key, n);
      inverse := Invert(value);
    }

    /** `set` with a string key. */
    method SetString(a: LangAlphabet, s: string)
      modifies this
      requires WF(a)
      ensures value == KeyedFromString(a, s) && inverse == Inverted(value)
      ensures Valid() && |value| == CpCount(a)
    {
      StringToVecProps(a, s);
      value := FillAlphabetFromStart(StringToVec(a, s), CpCount(a));
      inverse := Invert(value);
    }

    /**
     * `reset`: `value` becomes `n` zeros and `inverse` is recomputed from it;
     * for `n >= 2` this is not a permutation.
     */
    method Reset(n: nat)
      modifies this
      ensures value == seq(n, _ => 0) && inverse == Inverted(value)
    {
      value := seq(n, _ => 0);
      inverse := Invert(value);
    }

    /**
     * `randomize`: shuffle `value` in place with the draws `picks`, then
     * recompute `inverse`; a permutation stays a permutation.
     */
    method Randomize(picks: seq<int>)
      modifies this
      requires |picks| == |value| && InRange(picks, |value|)
      requires InRange(value, |value|)
      ensures value == Shuffled(old(value), picks) && multiset(value) == multiset(old(value))
      ensures InRange(value, |value|) && inverse == Inverted(value)
      ensures old(Valid()) ==> Valid()
    {
      var arr := ToArray(value);
      Shuffle(arr, picks);
      ShuffledProps(value, picks);
      MultisetInRange(value, arr[..], |value|);
      value := arr[..];
      inverse := Invert(value);
    }
  }

  /** A valid alphabet's decryption undoes its encryption, and the other way round. */
  lemma EncryptDecrypt(k: Alphabet, x: int)
    requires k.Valid() && 0 <= x < |k.value|
    ensures 0 <= k.Encrypt(x) < |k.inverse| && k.Decrypt(k.Encrypt(x)) == x
    ensures 0 <= k.Decrypt(x) < |k.value| && k.Encrypt(k.Decrypt(x)) == x
  {
    InvertedIsInverse(k.value);
  }

  /** `reset` on two or more letters leaves a `value` that is not a permutation. */
  lemma ResetNotPermutation(n: nat)
    requires n >= 2
    ensures !IsPermutation(seq(n, _ => 0))
  {
    var z := seq(n, _ => 0);
    assert z[0] == z[1];
  }
}
