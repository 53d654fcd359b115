/**
 * The 26-letter English alphabet the library's examples and tests build:
 * `A`..`Z` and `a`..`z` at code points 0..25, with no substitutions.
 */
module English {
  import opened Wrappers
  import opened Util
  import opened LangAlphabets
  import opened Languages

  /** `ABCDEFGHIJKLMNOPQRSTUVWXYZ`. */
  function Upper(): (r: string)
    ensures |r| == 26 && forall i :: 0 <= i < 26 ==> r[i] as int == 65 + i
  {
    seq(26, i requires 0 <= i < 26 => (65 + i) as char)
  }

  /** `abcdefghijklmnopqrstuvwxyz`. */
  function Lower(): (r: string)
    ensures |r| == 26 && forall i :: 0 <= i < 26 ==> r[i] as int == 97 + i
  {
    seq(26, i requires 0 <= i < 26 => (97 + i) as char)
  }

  /** The alphabet before `init`: letters, no substitutions, a zero scoring table. */
  function Raw(): LangAlphabet {
    LangAlphabet(Upper(), Lower(), [], [], seq(26, i => 0), map[])
  }

  /** The raw alphabet passes every check of `init`. */
  lemma RawAccepted()
    ensures Check(Raw()) == Pass && Canonical(Raw())
  {
    var a := Raw();
    assert IsUnique(a.upper) by {
      forall i, j | 0 <= i < j < 26 ensures a.upper[i] != a.upper[j] {
        assert a.upper[i] as int != a.upper[j] as int;
      }
    }
    assert IsUnique(a.lower) by {
      forall i, j | 0 <= i < j < 26 ensures a.lower[i] != a.lower[j] {
        assert a.lower[i] as int != a.lower[j] as int;
      }
    }
    assert Concat([]) == [];
    IsUniqueEmpty();
    forall i, j | 0 <= i < 26 && 0 <= j < 26 ensures a.upper[i] != a.lower[j] {
      assert a.upper[i] as int != a.lower[j] as int;
    }
    DistinctPasses(a);
    CheckAccepts(a);
  }

  /** The alphabet after `init`. */
  function Alphabet(): LangAlphabet {
    RawAccepted();
    Raw().(charToCp := CharToCp(Raw()))
  }

  /** The initialised alphabet is well formed and has 26 code points. */
  lemma AlphabetWF()
    ensures WF(Alphabet()) && CpCount(Alphabet()) == 26
  {
    RawAccepted();
    InitWellFormed(Raw());
  }

  /** `A`..`Z` and `a`..`z` are letters at code points 0..25. */
  lemma LetterCodes(i: int)
    requires 0 <= i < 26
    ensures IsLetter(Alphabet(), (65 + i) as char) && GetCp(Alphabet(), (65 + i) as char) == i
    ensures IsLetter(Alphabet(), (97 + i) as char) && GetCp(Alphabet(), (97 + i) as char) == i
    ensures CpToUpper(Alphabet(), i) == (65 + i) as char
  {
    AlphabetWF();
    assert Alphabet().upper[i] == (65 + i) as char;
    assert Alphabet().lower[i] == (97 + i) as char;
  }

  /** Characters outside `A`..`Z` and `a`..`z` are not letters. */
  lemma NonLetter(c: char)
    requires !(65 <= c as int < 91) && !(97 <= c as int < 123)
    ensures !IsLetter(Alphabet(), c)
  {
    var up, lo := Upper(), Lower();
    Table();
    LetterMapKeys(up, lo, 26);
    assert up[..26] == up && lo[..26] == lo;
    forall k | 0 <= k < 26 ensures up[k] != c && lo[k] != c {
      assert up[k] as int == 65 + k && lo[k] as int == 97 + k;
    }
    assert c !in up && c !in lo;
  }

  /** Uppercase letters are upper, lowercase letters are not. */
  lemma LetterCases(i: int)
    requires 0 <= i < 26
    ensures IsUpper(Alphabet(), (65 + i) as char) && !IsUpper(Alphabet(), (97 + i) as char)
    ensures IsLower(Alphabet(), (97 + i) as char) && !IsLower(Alphabet(), (65 + i) as char)
  {
    assert Alphabet().upper[i] == (65 + i) as char;
    assert Alphabet().lower[i] == (97 + i) as char;
    forall k | 0 <= k < 26 ensures Upper()[k] != (97 + i) as char && Lower()[k] != (65 + i) as char {
      assert Upper()[k] as int == 65 + k && Lower()[k] as int == 97 + k;
    }
  }

  /** The code points of the letters of "hello" and "HELLO". */
  lemma HelloCodes()
    ensures 'h' in Alphabet().charToCp && Alphabet().charToCp['h'] == 7
    ensures 'e' in Alphabet().charToCp && Alphabet().charToCp['e'] == 4
    ensures 'l' in Alphabet().charToCp && Alphabet().charToCp['l'] == 11
    ensures 'o' in Alphabet().charToCp && Alphabet().charToCp['o'] == 14
    ensures Upper()[7] == 'H' && Upper()[4] == 'E' && Upper()[11] == 'L' && Upper()[14] == 'O'
  {
    LetterCodes(7);
    LetterCodes(4);
    LetterCodes(11);
    LetterCodes(14);
  }

  /** The `i`-th letters are new after the first `i` rounds of `new_cp`. */
  lemma FreshLetters(i: nat)
    requires i < 26
    ensures Upper()[i] !in LetterMap(Upper(), Lower(), i) && Lower()[i] !in LetterMap(Upper(), Lower(), i)
    ensures Upper()[i] !in Upper()[..i] && Lower()[i] !in Lower()[..i]
  {
    var up := Upper();
    var lo := Lower();
    LetterMapKeys(up, lo, i);
    forall k | 0 <= k < i ensures up[k] != up[i] && lo[k] != lo[i] && up[k] != lo[i] && lo[k] != up[i] {
      assert up[k] as int == 65 + k && lo[k] as int == 97 + k;
    }
  }

  /** The initialised table is the one the letter rounds build. */
  lemma Table()
    ensures Alphabet().charToCp == LetterMap(Upper(), Lower(), 26)
  {
    RawAccepted();
  }
}
