/**
 * The classic Vigenère cipher (`src/cipher/polyalph/classic_vig.rs`, the
 * file the module declares; `classic_vigenere.rs` holds the same logic):
 * the `n`-th letter of the message is shifted by keyword letter
 * `n mod |keyword|` through the classic tableau; other characters are
 * copied and do not use up keyword letters.
 */
module ClassicVigenere {
  import opened Permutations
  import opened LangAlphabets
  import opened Languages
  import opened Letterwise
  import opened ClassicVigSquares
  import opened Keywords
  import opened VigSolver

  /** The code points of the ciphertext letters: `p[n] + key[n mod |key|]` mod 26. */
  function EncryptCps(p: seq<int>, key: seq<int>): (c: seq<int>)
    requires (|p| == 0 || KeyUsable(key)) && InRange(p, 26)
    ensures |c| == |p| && InRange(c, 26)
  {
    seq(|p|, n requires 0 <= n < |p| => Shift(p[n], key[n % |key|]))
  }

  /** The code points of the plaintext letters: `c[n] - key[n mod |key|]` mod 26. */
  function DecryptCps(c: seq<int>, key: seq<int>): (p: seq<int>)
    requires (|c| == 0 || KeyUsable(key)) && InRange(c, 26)
    ensures |p| == |c| && InRange(p, 26)
  {
    seq(|c|, n requires 0 <= n < |c| => Unshift(key[n % |key|], c[n]))
  }

  /** Encryption adds keyword letter `n mod |key|` to the `n`-th code point, decryption subtracts it. */
  lemma CpsValues(p: seq<int>, key: seq<int>)
    requires KeyUsable(key) && InRange(p, 26)
    ensures forall n :: 0 <= n < |p| ==> EncryptCps(p, key)[n] == (p[n] + key[n % |key|]) % 26
    ensures forall n :: 0 <= n < |p| ==> DecryptCps(p, key)[n] == (p[n] - key[n % |key|]) % 26
  {
    forall n | 0 <= n < |p|
      ensures EncryptCps(p, key)[n] == (p[n] + key[n % |key|]) % 26
      ensures DecryptCps(p, key)[n] == (p[n] - key[n % |key|]) % 26
    {
      ShiftMod(p[n], key[n % |key|]);
      ShiftMod(key[n % |key|], p[n]);
    }
  }

  /** Subtracting the key letters undoes adding them. */
  lemma DecryptEncryptCps(p: seq<int>, key: seq<int>)
    requires KeyUsable(key) && InRange(p, 26)
    ensures DecryptCps(EncryptCps(p, key), key) == p
  {
    forall n | 0 <= n < |p| ensures DecryptCps(EncryptCps(p, key), key)[n] == p[n] {
      ShiftUnshift(key[n % |key|], p[n]);
    }
  }

  /** The letters' code points of `msg` shifted by the keyword. */
  function Encrypted(a: LangAlphabet, key: seq<int>, msg: string): string
    requires TableauAlphabet(a) && (LetterCount(a, msg) == 0 || KeyUsable(key))
  {
    StringToVecProps(a, msg);
    Relettered(a, msg, EncryptCps(StringToVec(a, msg), key))
  }

  /** The letters' code points of `msg` shifted back by the keyword. */
  function Decrypted(a: LangAlphabet, key: seq<int>, msg: string): string
    requires TableauAlphabet(a) && (LetterCount(a, msg) == 0 || KeyUsable(key))
  {
    StringToVecProps(a, msg);
    Relettered(a, msg, DecryptCps(StringToVec(a, msg), key))
  }

  /** Decryption undoes encryption on a message whose letters are the alphabet's own. */
  lemma RoundTrip(a: LangAlphabet, key: seq<int>, msg: string)
    requires TableauAlphabet(a) && KeyUsable(key) && PlainLetters(a, msg)
    ensures Decrypted(a, key, Encrypted(a, key, msg)) == msg
  {
    StringToVecProps(a, msg);
    var p := StringToVec(a, msg);
    var c := EncryptCps(p, key);
    ReletteredVec(a, msg, c);
    DecryptEncryptCps(p, key);
    ReletteredTwice(a, msg, c, p);
    ReletteredOwn(a, msg);
  }

  /** The tableau lookups at letter `n` give the `n`-th code point of either direction. */
  lemma LookupStep(sq: ClassicVigSquare, p: seq<int>, key: seq<int>, n: int, x: int, k: int)
    requires sq.Valid() && sq.Initialised() && KeyUsable(key) && InRange(p, 26)
    requires 0 <= n < |p| && x == p[n] && k == key[Slot(n, |key|)]
    ensures sq.Encrypt(x, k) == EncryptCps(p, key)[n] && sq.Decrypt(k, x) == DecryptCps(p, key)[n]
  {
    SlotMod(n, |key|);
    Lookups(sq, x, k);
    Lookups(sq, k, x);
  }

  /**
   * The closure `|cp, shift| square.decrypt(shift, cp)` of `solve`, as
   * the initialised tableau computes it (see `SolveDecryptMatches`).
   */
  function SolveDecrypt(cp: int, shift: int): int {
    if 0 <= shift < 26 && 0 <= cp < 26 then Unshift(shift, cp) else 0
  }

  /** On code points and shifts below 26 the closure is the tableau's inverse lookup. */
  lemma SolveDecryptMatches(sq: ClassicVigSquare, cp: int, shift: int)
    requires sq.Valid() && sq.Initialised() && 0 <= cp < 26 && 0 <= shift < 26
    ensures SolveDecrypt(cp, shift) == sq.Decrypt(shift, cp) == (cp - shift) % 26
  {
    Lookups(sq, shift, cp);
    ShiftMod(shift, cp);
  }

  /**
   * The shift for position `idx`: keyword letter `idx mod keyLen`, as
   * `encrypt` uses it. `classic_vig.rs` passes `false` in this place, which
   * is not a closure of the type `vig_solve` asks for; this closure stands in.
   */
  function SolveShift(key: seq<int>, idx: int, keyLen: int, pt: seq<int>): int {
    if keyLen > 0 && 0 <= idx && idx % keyLen < |key| then key[idx % keyLen] else 0
  }

  /** The classic shift never looks at the plaintext, so every sweep decrypts each position directly. */
  lemma SolveShiftBlind()
    ensures PlaintextBlind(SolveShift)
  {
    forall key, idx, keyLen, p, q ensures SolveShift(key, idx, keyLen, p) == SolveShift(key, idx, keyLen, q) {
    }
  }

  /** The classic shift reads key entry `idx mod key_len` only. */
  lemma SolveShiftLocal()
    ensures ColumnLocal(SolveShift)
  {
    SolveShiftBlind();
  }

  /** Under a usable key the solver's decryption is the Vigenère decryption `DecryptCps`. */
  lemma SolveDecryption(ct: seq<int>, score: seq<int> -> F64, key: seq<int>)
    requires InRange(ct, 26) && KeyUsable(key)
    ensures Decryption(Env(ct, 1, score, SolveDecrypt, SolveShift), key) == DecryptCps(ct, key)
  {
    var d := Decryption(Env(ct, 1, score, SolveDecrypt, SolveShift), key);
    forall n | 0 <= n < |ct| ensures d[n] == DecryptCps(ct, key)[n] {
      var k := key[n % |key|];
      assert 0 <= k < 26 && 0 <= ct[n] < 26;
      assert SolveShift(key, n, |key|, []) == k;
      assert d[n] == SolveDecrypt(ct[n], k) == Unshift(k, ct[n]);
    }
  }

  /** One key length of `solve` ends with the score of the Vigenère decryption under its key. */
  lemma SolveTrialScored(e: Env, t: Trial, pt0: seq<int>, keyLen: nat)
    requires e == Env(e.ct, 1, e.score, SolveDecrypt, SolveShift)
    requires InRange(e.ct, 26) && keyLen > 0
    requires ShapedRun(e, t, pt0, keyLen)
    ensures KeyUsable(t.key)
    ensures FinalScore(t) == e.score(DecryptCps(e.ct, t.key)) && EndPt(t) == DecryptCps(e.ct, t.key)
  {
    SolveShiftLocal();
    TrialScored(e, t, pt0, keyLen);
    SolveDecryption(e.ct, e.score, t.key);
    assert t.key == t.path[|t.path| - 1].key;
  }

  /**
   * In `solve` every key length ends with the score of the Vigenère
   * decryption under its key, and that decryption is the buffer it leaves.
   */
  lemma SolveTrialsScored(e: Env, trials: seq<Trial>)
    requires e == Env(e.ct, 1, e.score, SolveDecrypt, SolveShift)
    requires InRange(e.ct, 26)
    requires TrialsRun(e, trials) && TrialsShaped(trials, e.inc)
    ensures forall j :: 0 <= j < |trials| ==>
      FinalScore(trials[j]) == e.score(DecryptCps(e.ct, trials[j].key)) && EndPt(trials[j]) == DecryptCps(e.ct, trials[j].key)
  {
    SolveShiftLocal();
    forall j | 0 <= j < |trials|
      ensures FinalScore(trials[j]) == e.score(DecryptCps(e.ct, trials[j].key)) && EndPt(trials[j]) == DecryptCps(e.ct, trials[j].key)
    {
      TrialsScoredAt(e, trials, j);
      SolveDecryption(e.ct, e.score, trials[j].key);
    }
  }

  /** A letter of `encrypt` takes the tableau entry for the next keyword letter and extends the enciphered prefix. */
  lemma EncryptStep(sq: ClassicVigSquare, a: LangAlphabet, key: seq<int>, msg: string, cps: seq<int>, i: int, count: int, result: string, k: int)
    requires sq.Valid() && sq.Initialised() && TableauAlphabet(a) && KeyUsable(key)
    requires |StringToVec(a, msg)| == LetterCount(a, msg) && InRange(StringToVec(a, msg), 26)
    requires cps == EncryptCps(StringToVec(a, msg), key)
    requires 0 <= i < |msg| && IsLetter(a, msg[i]) && Rebuilt(a, msg, cps, i, count, result)
    requires k == key[Slot(count, |key|)]
    ensures 0 <= GetCp(a, msg[i]) < 26 && 0 <= k < 26
    ensures count < |cps| && sq.Encrypt(GetCp(a, msg[i]), k) == cps[count]
    ensures Rebuilt(a, msg, cps, i + 1, count + 1, result + [UpdateCp(a, msg[i], sq.Encrypt(GetCp(a, msg[i]), k))])
  {
    RebuiltLetter(a, msg, cps, i, count, result);
    LookupStep(sq, StringToVec(a, msg), key, count, GetCp(a, msg[i]), k);
    RebuiltSnoc(a, msg, cps, i, count, result, UpdateCp(a, msg[i], sq.Encrypt(GetCp(a, msg[i]), k)));
  }

  /** A letter of `decrypt` takes the inverse tableau entry for the next keyword letter and extends the deciphered prefix. */
  lemma DecryptStep(sq: ClassicVigSquare, a: LangAlphabet, key: seq<int>, msg: string, cps: seq<int>, i: int, count: int, result: string, k: int)
    requires sq.Valid() && sq.Initialised() && TableauAlphabet(a) && KeyUsable(key)
    requires |StringToVec(a, msg)| == LetterCount(a, msg) && InRange(StringToVec(a, msg), 26)
    requires cps == DecryptCps(StringToVec(a, msg), key)
    requires 0 <= i < |msg| && IsLetter(a, msg[i]) && Rebuilt(a, msg, cps, i, count, result)
    requires k == key[Slot(count, |key|)]
    ensures 0 <= GetCp(a, msg[i]) < 26 && 0 <= k < 26
    ensures count < |cps| && sq.Decrypt(k, GetCp(a, msg[i])) == cps[count]
    ensures Rebuilt(a, msg, cps, i + 1, count + 1, result + [UpdateCp(a, msg[i], sq.Decrypt(k, GetCp(a, msg[i])))])
  {
    RebuiltLetter(a, msg, cps, i, count, result);
    LookupStep(sq, StringToVec(a, msg), key, count, GetCp(a, msg[i]), k);
    RebuiltSnoc(a, msg, cps, i, count, result, UpdateCp(a, msg[i], sq.Decrypt(k, GetCp(a, msg[i]))));
  }

  class ClassicVigenere {
    const square: ClassicVigSquare
    const keyword: Keyword

    ghost predicate Valid()
      reads this, square, square.square, square.inverse
    {
      square.Valid() && square.Initialised()
    }

    /** `new`: the classic tableau and the keyword `[0]`. */
    constructor ()
      ensures Valid() && keyword.value == [0] && fresh(keyword)
    {
      square := new ClassicVigSquare();
      keyword := new Keyword();
    }

    /**
     * `encrypt`: `at` and `%` demand a non-empty keyword once a letter is
     * reached, and the tableau indices demand keyword letters below 26; a
     * message without letters is returned as it is, whatever the keyword.
     */
    method Encrypt(a: LangAlphabet, msg: string) returns (result: string)
      requires Valid() && TableauAlphabet(a) && (LetterCount(a, msg) == 0 || KeyUsable(keyword.value))
      ensures result == Encrypted(a, keyword.value, msg)
      ensures LetterCount(a, msg) == 0 ==> result == msg
    {
      StringToVecProps(a, msg);
      ghost var cps := EncryptCps(StringToVec(a, msg), keyword.value);
      var count := 0;
      result := [];
      RebuiltStart(a, msg, cps);
      for i := 0 to |msg|
        invariant Rebuilt(a, msg, cps, i, count, result)
      {
        count, result := EncryptChar(a, msg, cps, i, count, result);
      }
      RebuiltDone(a, msg, cps, count, result);
    }

    /** One character of `encrypt`: a letter is shifted by the next keyword letter, anything else is copied. */
    method EncryptChar(a: LangAlphabet, msg: string, ghost cps: seq<int>, i: int, count: int, result: string) returns (count': int, result': string)
      requires Valid() && TableauAlphabet(a) && (LetterCount(a, msg) == 0 || KeyUsable(keyword.value))
      requires |StringToVec(a, msg)| == LetterCount(a, msg) && InRange(StringToVec(a, msg), 26)
      requires cps == EncryptCps(StringToVec(a, msg), keyword.value)
      requires 0 <= i < |msg| && Rebuilt(a, msg, cps, i, count, result)
      ensures Rebuilt(a, msg, cps, i + 1, count', result')
    {
      if IsLetter(a, msg[i]) {
        RebuiltAhead(a, msg, cps, i, count, result);
        count', result' := EncryptLetter(a, msg, cps, i, count, result);
      } else {
        RebuiltSnoc(a, msg, cps, i, count, result, msg[i]);
        result' := result + [msg[i]];
        count' := count;
      }
    }

    /** A letter: its code point goes through the tableau under the keyword letter in turn. */
    method EncryptLetter(a: LangAlphabet, msg: string, ghost cps: seq<int>, i: int, count: int, result: string) returns (count': int, result': string)
      requires Valid() && TableauAlphabet(a) && KeyUsable(keyword.value)
      requires |StringToVec(a, msg)| == LetterCount(a, msg) && InRange(StringToVec(a, msg), 26)
      requires cps == EncryptCps(StringToVec(a, msg), keyword.value)
      requires 0 <= i < |msg| && IsLetter(a, msg[i]) && Rebuilt(a, msg, cps, i, count, result)
      ensures Rebuilt(a, msg, cps, i + 1, count', result')
    {
      var k := keyword.At(Slot(count, keyword.Len()));
      EncryptStep(square, a, keyword.value, msg, cps, i, count, result, k);
      var newCp := square.Encrypt(GetCp(a, msg[i]), k);
      result' := result + [UpdateCp(a, msg[i], newCp)];
      count' := count + 1;
    }

    /** `decrypt`: the same walk through the inverse tableau. */
    method Decrypt(a: LangAlphabet, msg: string) returns (result: string)
      requires Valid() && TableauAlphabet(a) && (LetterCount(a, msg) == 0 || KeyUsable(keyword.value))
      ensures result == Decrypted(a, keyword.value, msg)
      ensures LetterCount(a, msg) == 0 ==> result == msg
    {
      StringToVecProps(a, msg);
      ghost var cps := DecryptCps(StringToVec(a, msg), keyword.value);
      var count := 0;
      result := [];
      RebuiltStart(a, msg, cps);
      for i := 0 to |msg|
        invariant Rebuilt(a, msg, cps, i, count, result)
      {
        count, result := DecryptChar(a, msg, cps, i, count, result);
      }
      RebuiltDone(a, msg, cps, count, result);
    }

    /** One character of `decrypt`: a letter is shifted back by the next keyword letter, anything else is copied. */
    method DecryptChar(a: LangAlphabet, msg: string, ghost cps: seq<int>, i: int, count: int, result: string) returns (count': int, result': string)
      requires Valid() && TableauAlphabet(a) && (LetterCount(a, msg) == 0 || KeyUsable(keyword.value))
      requires |StringToVec(a, msg)| == LetterCount(a, msg) && InRange(StringToVec(a, msg), 26)
      requires cps == DecryptCps(StringToVec(a, msg), keyword.value)
      requires 0 <= i < |msg| && Rebuilt(a, msg, cps, i, count, result)
      ensures Rebuilt(a, msg, cps, i + 1, count', result')
    {
      if IsLetter(a, msg[i]) {
        RebuiltAhead(a, msg, cps, i, count, result);
        count', result' := DecryptLetter(a, msg, cps, i, count, result);
      } else {
        RebuiltSnoc(a, msg, cps, i, count, result, msg[i]);
        result' := result + [msg[i]];
        count' := count;
      }
    }

    /** A letter: its code point goes back through the tableau under the keyword letter in turn. */
    method DecryptLetter(a: LangAlphabet, msg: string, ghost cps: seq<int>, i: int, count: int, result: string) returns (count': int, result': string)
      requires Valid() && TableauAlphabet(a) && KeyUsable(keyword.value)
      requires |StringToVec(a, msg)| == LetterCount(a, msg) && InRange(StringToVec(a, msg), 26)
      requires cps == DecryptCps(StringToVec(a, msg), keyword.value)
      requires 0 <= i < |msg| && IsLetter(a, msg[i]) && Rebuilt(a, msg, cps, i, count, result)
      ensures Rebuilt(a, msg, cps, i + 1, count', result')
    {
      var k := keyword.At(Slot(count, keyword.Len()));
      DecryptStep(square, a, keyword.value, msg, cps, i, count, result, k);
      var newCp := square.Decrypt(k, GetCp(a, msg[i]));
      result' := result + [UpdateCp(a, msg[i], newCp)];
      count' := count + 1;
    }

    /**
     * `solve`: the keyword becomes `vig_solve` of the message's code
     * points with shift step 1, the tableau's inverse lookup and the
     * keyword shift. `trials` records what each key length did; the
     * keyword is the key of the first best-scoring one, a usable keyword
     * of at most 30 letters. It is empty when the message has no letters,
     * or when even the best key length scores only `f64::MIN`.
     */
    method Solve(a: LangAlphabet, msg: string, score: seq<int> -> F64) returns (ghost trials: seq<Trial>)
      requires Valid() && TableauAlphabet(a)
      modifies keyword
      ensures TrialsRun(Env(StringToVec(a, msg), 1, score, SolveDecrypt, SolveShift), trials)
      ensures |trials| == MinInt(KeyLenMaxTest, LetterCount(a, msg)) && TrialsShaped(trials, 1)
      ensures LetterCount(a, msg) == 0 ==> keyword.value == []
      ensures |keyword.value| <= KeyLenMaxTest && (keyword.value != [] ==> KeyUsable(keyword.value))
      ensures LetterCount(a, msg) > 0 ==>
        exists j :: FirstMax(trials, j) && keyword.value == if FinalScore(trials[j]) > F64Min then trials[j].key else []
      ensures InRange(StringToVec(a, msg), 26)
      ensures forall j :: 0 <= j < |trials| ==>
        FinalScore(trials[j]) == score(DecryptCps(StringToVec(a, msg), trials[j].key))
    {
      StringToVecProps(a, msg);
      var ciphertext := StringToVec(a, msg);
      var key;
      key, trials := VigSolve(ciphertext, 1, score, SolveDecrypt, SolveShift);
      SolveTrialsScored(Env(ciphertext, 1, score, SolveDecrypt, SolveShift), trials);
      keyword.SetKey(key);
    }

    /** `reset`: only the keyword changes, back to `[0]`. */
    method Reset()
      modifies keyword
      ensures keyword.value == [0]
    {
      keyword.Reset();
    }

    /** `randomize`: only the keyword changes, to the drawn letters. */
    method Randomize(length: nat, draws: seq<int>, cpCount: int)
      requires 3 <= length < 12 && |draws| == length && InRange(draws, cpCount)
      modifies keyword
      ensures keyword.value == draws
    {
      keyword.Randomize(length, draws, cpCount);
    }
  }
}
