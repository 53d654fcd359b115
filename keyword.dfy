/** The keyword key (`src/key/keyword.rs`): a sequence of code points. */
module Keywords {
  import opened Permutations
  import opened Util
  import opened LangAlphabets
  import opened Languages

  class Keyword {
    var value: seq<int>

    /** `new`: the one-letter keyword `[0]`. */
    constructor ()
      ensures value == [0]
    {
      value := [0];
    }

    /** `create_from`: the code points of the letters of `s`. */
    constructor FromString(a: LangAlphabet, s: string)
      ensures value == StringToVec(a, s)
    {
      value := StringToVec(a, s);
    }

    /** `len`. */
    function Len(): nat
      reads this
    {
      |value|
    }

    /** `is_empty`. */
    predicate IsEmpty()
      reads this
    {
      |value| == 0
    }

    /** `at`, whose assertion demands an index inside the keyword. */
    function At(idx: int): int
      reads this
      requires 0 <= idx < |value|
    {
      value[idx]
    }

    /** `set_key` with a string: the code points of its letters. */
    method SetKeyString(a: LangAlphabet, s: string)
      modifies this
      ensures value == StringToVec(a, s)
    {
      value := StringToVec(a, s);
    }

    /** `set_key` with a vector: an exact copy. */
    method SetKey(key: seq<int>)
      modifies this
      ensures value == key
    {
      value := key;
    }

    /** `reset`: back to `[0]`. */
    method Reset()
      modifies this
      ensures value == [0]
    {
      value := [0];
    }

    /**
     * `randomize`: `length` stands for the draw `gen_range(3..12)` and
     * `draws` for the letters `fill_random_array` draws below `cpCount`.
     */
    method Randomize(length: nat, draws: seq<int>, cpCount: int)
      modifies this
      requires 3 <= length < 12 && |draws| == length && InRange(draws, cpCount)
      ensures value == draws
      ensures 3 <= |value| < 12 && InRange(value, cpCount)
    {
      var arr := new int[length](i => 0);
      FillRandomArray(arr, draws, cpCount);
      value := arr[..];
    }
  }

  /** A keyword built from a string over a well-formed alphabet holds valid code points, one per letter. */
  lemma FromStringValid(a: LangAlphabet, s: string)
    requires WF(a)
    ensures InRange(StringToVec(a, s), CpCount(a)) && |StringToVec(a, s)| == LetterCount(a, s)
  {
    StringToVecProps(a, s);
  }
}
