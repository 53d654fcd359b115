/**
 * The Enigma plugboard (`src/key/enigma/plugboard.rs`): a substitution of
 * the 26 letters that swaps the two letters of each plug and leaves the
 * others alone, so that sending a letter through it twice gives it back.
 */
module Plugboards {
  import opened Permutations
  import opened Util

  const Letters: int := 26

  /** A substitution of the 26 letters that undoes itself: `input(input(x)) == x`. */
  predicate Involution(s: seq<int>) {
    |s| == Letters && InRange(s, Letters) && forall x :: 0 <= x < Letters ==> s[s[x]] == x
  }

  /** `is_valid_plug`: both letters are unplugged, and they differ. */
  predicate ValidPlug(s: seq<int>, a: int, b: int)
    requires 0 <= a < |s| && 0 <= b < |s|
  {
    s[a] == a && s[b] == b && a != b
  }

  /** `is_existing_plug`: the two letters are plugged to each other. */
  predicate ExistingPlug(s: seq<int>, a: int, b: int)
    requires 0 <= a < |s| && 0 <= b < |s|
  {
    s[a] == b && s[b] == a && a != b
  }

  /** `is_letter_used`: the letter is sent to another one. */
  predicate LetterUsed(s: seq<int>, x: int)
    requires 0 <= x < |s|
  {
    s[x] != x
  }

  /** The substitution after `add_plug(a, b)`. */
  function Plugged(s: seq<int>, a: int, b: int): (r: seq<int>)
    requires 0 <= a < |s| && 0 <= b < |s|
    ensures |r| == |s|
  {
    s[a := b][b := a]
  }

  /** The substitution after `del_plug(a, b)`. */
  function Unplugged(s: seq<int>, a: int, b: int): (r: seq<int>)
    requires 0 <= a < |s| && 0 <= b < |s|
    ensures |r| == |s|
  {
    s[a := a][b := b]
  }

  /** A valid plug keeps the substitution an involution, plugs `a` to `b`, and changes no other letter. */
  lemma AddPlugProps(s: seq<int>, a: int, b: int)
    requires Involution(s) && 0 <= a < Letters && 0 <= b < Letters && ValidPlug(s, a, b)
    ensures Involution(Plugged(s, a, b)) && ExistingPlug(Plugged(s, a, b), a, b)
    ensures forall x :: 0 <= x < Letters && x != a && x != b ==> Plugged(s, a, b)[x] == s[x]
  {
    var r := Plugged(s, a, b);
    forall x | 0 <= x < Letters ensures r[r[x]] == x {
    }
  }

  /** Removing an existing plug keeps the substitution an involution and frees both letters. */
  lemma DelPlugProps(s: seq<int>, a: int, b: int)
    requires Involution(s) && 0 <= a < Letters && 0 <= b < Letters && ExistingPlug(s, a, b)
    ensures Involution(Unplugged(s, a, b)) && ValidPlug(Unplugged(s, a, b), a, b)
    ensures forall x :: 0 <= x < Letters && x != a && x != b ==> Unplugged(s, a, b)[x] == s[x]
  {
    var r := Unplugged(s, a, b);
    forall x | 0 <= x < Letters ensures r[r[x]] == x {
    }
  }

  /** Deleting a plug just added, or adding back a plug just deleted, restores the substitution. */
  lemma PlugRoundTrips(s: seq<int>, a: int, b: int)
    requires 0 <= a < |s| && 0 <= b < |s|
    ensures ValidPlug(s, a, b) ==> Unplugged(Plugged(s, a, b), a, b) == s
    ensures ExistingPlug(s, a, b) ==> Plugged(Unplugged(s, a, b), a, b) == s
  {
  }

  /** In an involution a used letter is plugged to exactly the letter it is sent to. */
  lemma UsedLetterPlugged(s: seq<int>, x: int)
    requires Involution(s) && 0 <= x < Letters
    ensures LetterUsed(s, x) <==> ExistingPlug(s, x, s[x])
  {
  }

  /** The substitution `reset` writes sends each letter to itself: an involution with no plug. */
  lemma IdentityUnplugged()
    ensures Involution(Identity(Letters))
    ensures forall x :: 0 <= x < Letters ==> !LetterUsed(Identity(Letters), x)
  {
  }

  /** The plugs `randomize` adds: `values[2i]` with `values[2i + 1]` for `i < k`, from the identity. */
  function PlugsFrom(values: seq<int>, k: nat): (r: seq<int>)
    requires |values| == Letters && InRange(values, Letters) && 2 * k <= Letters
    ensures |r| == Letters
    decreases k
  {
    if k == 0 then Identity(Letters) else Plugged(PlugsFrom(values, k - 1), values[2 * k - 2], values[2 * k - 1])
  }

  /**
   * With `values` a permutation of the letters, each plug `randomize` adds
   * is valid, the substitution stays an involution, and the used letters
   * are exactly the first `2k` values.
   */
  lemma {:induction false} PlugsFromProps(values: seq<int>, k: nat)
    requires |values| == Letters && IsPermutation(values) && InRange(values, Letters) && 2 * k <= Letters
    ensures Involution(PlugsFrom(values, k))
    ensures forall x :: 0 <= x < Letters ==> (LetterUsed(PlugsFrom(values, k), x) <==> x in values[..2 * k])
    decreases k
  {
    if k > 0 {
      var s := PlugsFrom(values, k - 1);
      var a, b := values[2 * k - 2], values[2 * k - 1];
      PlugsFromProps(values, k - 1);
      assert a !in values[..2 * k - 2] && b !in values[..2 * k - 2];
      assert ValidPlug(s, a, b);
      AddPlugProps(s, a, b);
      assert values[..2 * k] == values[..2 * k - 2] + [a, b];
    }
  }

  /** The next pair of a permutation is a valid plug after the previous ones. */
  lemma NextPlugValid(values: seq<int>, k: nat)
    requires |values| == Letters && IsPermutation(values) && InRange(values, Letters) && 2 * k + 2 <= Letters
    ensures ValidPlug(PlugsFrom(values, k), values[2 * k], values[2 * k + 1])
  {
    PlugsFromProps(values, k);
    assert values[2 * k] !in values[..2 * k] && values[2 * k + 1] !in values[..2 * k];
  }

  /** The letters `randomize` pairs up: a shuffle of `0..26`, so each letter once. */
  function ShuffledLetters(picks: seq<int>): (v: seq<int>)
    requires |picks| == Letters && InRange(picks, Letters)
    ensures v == Shuffled(Identity(Letters), picks)
    ensures |v| == Letters && IsPermutation(v) && InRange(v, Letters)
  {
    var v := Shuffled(Identity(Letters), picks);
    IdentityIsPermutation(Letters);
    ShuffledProps(Identity(Letters), picks);
    assert forall i :: 0 <= i < Letters ==> v[i] in multiset(Identity(Letters)) by {
      forall i | 0 <= i < Letters ensures v[i] in multiset(Identity(Letters)) {
        assert v[i] in multiset(v);
      }
    }
    v
  }

  class Plugboard {
    var substitution: seq<int>

    /** `new`: 26 zeros, then `reset`. */
    constructor ()
      ensures substitution == Identity(Letters) && Involution(substitution)
    {
      substitution := Identity(Letters);
      IdentityUnplugged();
    }

    /** `Clone`: a fresh plugboard with the same substitution. */
    method Clone() returns (c: Plugboard)
      ensures fresh(c) && c.substitution == substitution
    {
      c := new Plugboard();
      c.substitution := substitution;
    }

    /** `input`: `usize` indexing demands a letter of the substitution. */
    function Input(letter: int): int
      reads this
      requires 0 <= letter < |substitution|
    {
      substitution[letter]
    }

    /** `is_valid_plug`. */
    predicate IsValidPlug(a: int, b: int)
      reads this
      requires 0 <= a < |substitution| && 0 <= b < |substitution|
    {
      ValidPlug(substitution, a, b)
    }

    /** `is_existing_plug`. */
    predicate IsExistingPlug(a: int, b: int)
      reads this
      requires 0 <= a < |substitution| && 0 <= b < |substitution|
    {
      ExistingPlug(substitution, a, b)
    }

    /** `is_letter_used`. */
    predicate IsLetterUsed(x: int)
      reads this
      requires 0 <= x < |substitution|
    {
      LetterUsed(substitution, x)
    }

    /** `add_plug`; its debug assertion demands a valid plug. */
    method AddPlug(a: int, b: int)
      requires 0 <= a < |substitution| && 0 <= b < |substitution| && IsValidPlug(a, b)
      modifies this
      ensures substitution == Plugged(old(substitution), a, b)
    {
      substitution := substitution[a := b];
      substitution := substitution[b := a];
    }

    /** `del_plug`; its debug assertion demands an existing plug. */
    method DelPlug(a: int, b: int)
      requires 0 <= a < |substitution| && 0 <= b < |substitution| && IsExistingPlug(a, b)
      modifies this
      ensures substitution == Unplugged(old(substitution), a, b)
    {
      substitution := substitution[a := a];
      substitution := substitution[b := b];
    }

    /** `reset`: `fill_consecutive_vec(substitution, 0, 26)`. */
    method Reset()
      modifies this
      ensures substitution == Consecutive(0, Letters, |old(substitution)|)
      ensures |old(substitution)| == Letters ==> substitution == Identity(Letters) && Involution(substitution)
    {
      var arr := ToArray(substitution);
      FillConsecutive(arr, 0, Letters);
      substitution := arr[..];
      ConsecutiveIsIdentity(Letters);
      IdentityUnplugged();
    }

    /** The loop of `randomize`: plug `values[2i]` to `values[2i + 1]` for each `i < numPlugs`. */
    method AddPlugs(values: seq<int>, numPlugs: int)
      requires |values| == Letters && IsPermutation(values) && InRange(values, Letters) && 0 <= numPlugs <= 13
      requires substitution == Identity(Letters)
      modifies this
      ensures substitution == PlugsFrom(values, numPlugs) && Involution(substitution)
    {
      PlugsFromProps(values, 0);
      for i := 0 to numPlugs
        invariant substitution == PlugsFrom(values, i) && Involution(substitution)
      {
        PlugsFromProps(values, i + 1);
        NextPlugValid(values, i);
        var a, b := values[i * 2], values[i * 2 + 1];
        AddPlug(a, b);
      }
    }

    /**
     * `randomize`: `picks` stands for the shuffle's draws and `numPlugs`
     * for `gen_range(5..13)`; the plugs join consecutive pairs of the
     * shuffled letters.
     */
    method Randomize(picks: seq<int>, numPlugs: int)
      requires |substitution| == Letters && |picks| == Letters && InRange(picks, Letters) && 5 <= numPlugs < 13
      modifies this
      ensures substitution == PlugsFrom(ShuffledLetters(picks), numPlugs) && Involution(substitution)
    {
      Reset();
      var arr := new int[Letters](_ => 0);
      FillConsecutive(arr, 0, Letters);
      ConsecutiveIsIdentity(Letters);
      Shuffle(arr, picks);
      var values := arr[..];
      assert values == ShuffledLetters(picks);
      AddPlugs(values, numPlugs);
    }
  }
}
