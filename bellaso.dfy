/**
 * The Bellaso cipher (`src/cipher/polyalph/bellaso.rs`): each letter is
 * looked up in row "keyword letter" of the Bellaso tableau; the same
 * transform encrypts and decrypts.
 */
module Bellaso {
  import opened Permutations
  import opened LangAlphabets
  import opened Languages
  import opened Letterwise
  import opened BellasoSquares
  import opened Keywords

  /** The code points after the transform: the entry of Bellaso row `key[n mod |key|]` at `p[n]`. */
  function RunCps(p: seq<int>, key: seq<int>): (c: seq<int>)
    requires (|p| == 0 || KeyUsable(key)) && InRange(p, 26)
    ensures |c| == |p| && InRange(c, 26)
  {
    seq(|p|, n requires 0 <= n < |p| => Cell(key[n % |key|], p[n]))
  }

  /** Key letters below 13 change the half of the alphabet a letter is in; the others keep it. */
  lemma RunCpsValues(p: seq<int>, key: seq<int>)
    requires KeyUsable(key) && InRange(p, 26)
    ensures forall n :: 0 <= n < |p| && key[n % |key|] < 13 ==> (p[n] < 13 <==> RunCps(p, key)[n] >= 13)
    ensures forall n :: 0 <= n < |p| && key[n % |key|] >= 13 ==> (p[n] < 13 <==> RunCps(p, key)[n] < 13)
  {
    forall n | 0 <= n < |p|
      ensures key[n % |key|] < 13 ==> (p[n] < 13 <==> RunCps(p, key)[n] >= 13)
      ensures key[n % |key|] >= 13 ==> (p[n] < 13 <==> RunCps(p, key)[n] < 13)
    {
      if key[n % |key|] < 13 {
        BellasoCellInvolution(key[n % |key|], p[n]);
      } else {
        MirrorCellInvolution(key[n % |key|], p[n]);
      }
    }
  }

  /** Looking up twice in the same row, mirrored or not, gives back the code points. */
  lemma RunCpsTwice(p: seq<int>, key: seq<int>)
    requires KeyUsable(key) && InRange(p, 26)
    ensures RunCps(RunCps(p, key), key) == p
  {
    forall n | 0 <= n < |p| ensures RunCps(RunCps(p, key), key)[n] == p[n] {
      if key[n % |key|] < 13 {
        BellasoCellInvolution(key[n % |key|], p[n]);
      } else {
        MirrorCellInvolution(key[n % |key|], p[n]);
      }
    }
  }

  function Ran(a: LangAlphabet, key: seq<int>, msg: string): string
    requires TableauAlphabet(a) && (LetterCount(a, msg) == 0 || KeyUsable(key))
  {
    StringToVecProps(a, msg);
    Relettered(a, msg, RunCps(StringToVec(a, msg), key))
  }

  /** Running the cipher twice gives back a message of plain letters. */
  lemma Involution(a: LangAlphabet, key: seq<int>, msg: string)
    requires TableauAlphabet(a) && KeyUsable(key) && PlainLetters(a, msg)
    ensures Ran(a, key, Ran(a, key, msg)) == msg
  {
    StringToVecProps(a, msg);
    var p := StringToVec(a, msg);
    var c := RunCps(p, key);
    ReletteredVec(a, msg, c);
    RunCpsTwice(p, key);
    ReletteredTwice(a, msg, c, p);
    ReletteredOwn(a, msg);
  }

  /** The tableau lookup at letter `n` gives the `n`-th code point of the transform. */
  lemma LookupStep(sq: BellasoSquare, p: seq<int>, key: seq<int>, n: int, x: int, k: int)
    requires sq.Valid() && sq.Initialised() && KeyUsable(key) && InRange(p, 26)
    requires 0 <= n < |p| && x == p[n] && k == key[Slot(n, |key|)]
    ensures sq.Encrypt(k, x) == RunCps(p, key)[n]
  {
    SlotMod(n, |key|);
  }

  /** A letter takes row `k` of the tableau for the next keyword letter `k` and extends the transformed prefix. */
  lemma LetterStep(sq: BellasoSquare, a: LangAlphabet, key: seq<int>, msg: string, cps: seq<int>, i: int, count: int, result: string, k: int)
    requires sq.Valid() && sq.Initialised() && TableauAlphabet(a) && KeyUsable(key)
    requires |StringToVec(a, msg)| == LetterCount(a, msg) && InRange(StringToVec(a, msg), 26)
    requires cps == RunCps(StringToVec(a, msg), key)
    requires 0 <= i < |msg| && IsLetter(a, msg[i]) && Rebuilt(a, msg, cps, i, count, result)
    requires k == key[Slot(count, |key|)]
    ensures 0 <= GetCp(a, msg[i]) < 26 && 0 <= k < 26
    ensures count < |cps| && sq.Encrypt(k, GetCp(a, msg[i])) == cps[count]
    ensures Rebuilt(a, msg, cps, i + 1, count + 1, result + [UpdateCp(a, msg[i], sq.Encrypt(k, GetCp(a, msg[i])))])
  {
    RebuiltLetter(a, msg, cps, i, count, result);
    LookupStep(sq, StringToVec(a, msg), key, count, GetCp(a, msg[i]), k);
    RebuiltSnoc(a, msg, cps, i, count, result, UpdateCp(a, msg[i], sq.Encrypt(k, GetCp(a, msg[i]))));
  }

  class Bellaso {
    const square: BellasoSquare
    const keyword: Keyword

    ghost predicate Valid()
      reads this, square, square.square
    {
      square.Valid() && square.Initialised()
    }

    /** `new`: the Bellaso tableau and the keyword `[0]`. */
    constructor ()
      ensures Valid() && keyword.value == [0] && fresh(keyword)
    {
      square := new BellasoSquare();
      keyword := new Keyword();
    }

    /** `run`. */
    method Run(a: LangAlphabet, msg: string) returns (result: string)
      requires Valid() && TableauAlphabet(a) && (LetterCount(a, msg) == 0 || KeyUsable(keyword.value))
      ensures result == Ran(a, keyword.value, msg)
      ensures LetterCount(a, msg) == 0 ==> result == msg
    {
      StringToVecProps(a, msg);
      ghost var cps := RunCps(StringToVec(a, msg), keyword.value);
      var count := 0;
      result := [];
      RebuiltStart(a, msg, cps);
      for i := 0 to |msg|
        invariant Rebuilt(a, msg, cps, i, count, result)
      {
        count, result := RunChar(a, msg, cps, i, count, result);
      }
      RebuiltDone(a, msg, cps, count, result);
    }

    /** One character of `run`: a letter is looked up in the row of the next keyword letter, anything else is copied. */
    method RunChar(a: LangAlphabet, msg: string, ghost cps: seq<int>, i: int, count: int, result: string) returns (count': int, result': string)
      requires Valid() && TableauAlphabet(a) && (LetterCount(a, msg) == 0 || KeyUsable(keyword.value))
      requires |StringToVec(a, msg)| == LetterCount(a, msg) && InRange(StringToVec(a, msg), 26)
      requires cps == RunCps(StringToVec(a, msg), keyword.value)
      requires 0 <= i < |msg| && Rebuilt(a, msg, cps, i, count, result)
      ensures Rebuilt(a, msg, cps, i + 1, count', result')
    {
      if IsLetter(a, msg[i]) {
        RebuiltAhead(a, msg, cps, i, count, result);
        count', result' := RunLetter(a, msg, cps, i, count, result);
      } else {
        RebuiltSnoc(a, msg, cps, i, count, result, msg[i]);
        result' := result + [msg[i]];
        count' := count;
      }
    }

    /** A letter: its code point goes through the tableau under the keyword letter in turn. */
    method RunLetter(a: LangAlphabet, msg: string, ghost cps: seq<int>, i: int, count: int, result: string) returns (count': int, result': string)
      requires Valid() && TableauAlphabet(a) && KeyUsable(keyword.value)
      requires |StringToVec(a, msg)| == LetterCount(a, msg) && InRange(StringToVec(a, msg), 26)
      requires cps == RunCps(StringToVec(a, msg), keyword.value)
      requires 0 <= i < |msg| && IsLetter(a, msg[i]) && Rebuilt(a, msg, cps, i, count, result)
      ensures Rebuilt(a, msg, cps, i + 1, count', result')
    {
      var k := keyword.At(Slot(count, keyword.Len()));
      LetterStep(square, a, keyword.value, msg, cps, i, count, result, k);
      var newCp := square.Encrypt(k, GetCp(a, msg[i]));
      result' := result + [UpdateCp(a, msg[i], newCp)];
      count' := count + 1;
    }

    /** `reset`: only the keyword changes, back to `[0]`. */
    method Reset()
      modifies keyword
      ensures keyword.value == [0]
    {
      keyword.Reset();
    }

    /** `randomize`: only the keyword changes, to the drawn letters. */
    method Randomize(length: nat, draws: seq<int>, cpCount: int)
      requires 3 <= length < 12 && |draws| == length && InRange(draws, cpCount)
      modifies keyword
      ensures keyword.value == draws
    {
      keyword.Randomize(length, draws, cpCount);
    }
  }
}
