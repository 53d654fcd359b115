/**
 * `LangAlphabet` (`src/lang/lang_alphabet.rs`): one alphabet of a language,
 * the validation `init` performs on it and the letter table `char_to_cp` it
 * builds. The struct is owned and mutated only through `&mut self`, so it is
 * modelled as a value and `Init` returns the updated value.
 */
module LangAlphabets {
  import opened Wrappers
  import opened Errors
  import opened Util

  /** The largest alphabet length an alphabet may have. */
  const MAX_ALPHABET_LEN: nat := 32

  datatype LangAlphabet = LangAlphabet(
    upper: string,
    lower: string,
    lowerSubs: seq<string>,
    upperSubs: seq<string>,
    scoringSubTable: seq<int>,
    charToCp: map<char, int>)
  {
    /** `length()`: the number of characters of the uppercase alphabet. */
    function Length(): nat { |upper| }
  }

  /** The substitutions joined into one string, as the `fold` with `acc + x` builds it. */
  function Concat(subs: seq<string>): string {
    if subs == [] then [] else Concat(subs[..|subs| - 1]) + subs[|subs| - 1]
  }

  /** Every substitution has exactly two characters. */
  predicate AllPairs(subs: seq<string>) {
    forall i :: 0 <= i < |subs| ==> |subs[i]| == 2
  }

  /** Some substitution has a second character that `alph` does not contain. */
  predicate SomeTargetMissing(subs: seq<string>, alph: string) {
    exists i :: 0 <= i < |subs| && |subs[i]| >= 2 && subs[i][1] !in alph
  }

  /**
   * The checks of `init`, in the order the source makes them; the first
   * failure is reported. The repeated-character tests are `is_unique` as
   * written, which skips by byte offset (`Util.IsUniqueAsWritten`).
   */
  function Check(a: LangAlphabet): Outcome<Error> {
    if |a.upper| != |a.lower| then Fail(AlphabetLenDifference(|a.upper|, |a.lower|))
    else if |a.upper| != |a.scoringSubTable| then Fail(ScoringSubTableLen(|a.upper|, |a.scoringSubTable|))
    else if |a.upper| > MAX_ALPHABET_LEN then Fail(MaxAlphabetLenExceeded(|a.upper|))
    else if !IsUniqueAsWritten(a.upper) then Fail(RepeatCharUpperAlph(a.upper))
    else if !IsUniqueAsWritten(a.lower) then Fail(RepeatCharLowerAlph(a.lower))
    else if !AllPairs(a.lowerSubs) || !AllPairs(a.upperSubs) then Fail(SubstitutionsNotPairs(a.upperSubs))
    else if !IsUniqueAsWritten(Concat(a.upperSubs)) then Fail(SubstitutionsNotUnique(a.upperSubs))
    else if !IsUniqueAsWritten(Concat(a.lowerSubs)) then Fail(SubstitutionsNotUnique(a.lowerSubs))
    else if SomeTargetMissing(a.lowerSubs, a.lower) then Fail(InvalidCharsInSubstitutions(a.lowerSubs))
    else if SomeTargetMissing(a.upperSubs, a.upper) then Fail(InvalidCharsInSubstitutions(a.upperSubs))
    else Pass
  }

  /** The alphabets `init` accepts, stated as one conjunction. */
  predicate Acceptable(a: LangAlphabet) {
    && |a.upper| == |a.lower| == |a.scoringSubTable| <= MAX_ALPHABET_LEN
    && IsUniqueAsWritten(a.upper) && IsUniqueAsWritten(a.lower)
    && AllPairs(a.lowerSubs) && AllPairs(a.upperSubs)
    && IsUniqueAsWritten(Concat(a.lowerSubs)) && IsUniqueAsWritten(Concat(a.upperSubs))
    && (forall i :: 0 <= i < |a.lowerSubs| ==> a.lowerSubs[i][1] in a.lower)
    && (forall i :: 0 <= i < |a.upperSubs| ==> a.upperSubs[i][1] in a.upper)
  }

  /** `init` accepts exactly the acceptable alphabets. */
  lemma CheckAccepts(a: LangAlphabet)
    ensures Check(a) == Pass <==> Acceptable(a)
  {
    if Acceptable(a) {
      assert !SomeTargetMissing(a.lowerSubs, a.lower);
      assert !SomeTargetMissing(a.upperSubs, a.upper);
    }
  }

  /** Which error `init` reports, in order of precedence. */
  lemma CheckPrecedence(a: LangAlphabet)
    ensures |a.upper| != |a.lower| ==> Check(a) == Fail(AlphabetLenDifference(|a.upper|, |a.lower|))
    ensures |a.upper| == |a.lower| && |a.upper| != |a.scoringSubTable|
        ==> Check(a) == Fail(ScoringSubTableLen(|a.upper|, |a.scoringSubTable|))
    ensures |a.upper| == |a.lower| == |a.scoringSubTable| > MAX_ALPHABET_LEN
        ==> Check(a) == Fail(MaxAlphabetLenExceeded(|a.upper|))
    ensures |a.upper| == |a.lower| == |a.scoringSubTable| <= MAX_ALPHABET_LEN && !IsUniqueAsWritten(a.upper)
        ==> Check(a) == Fail(RepeatCharUpperAlph(a.upper))
    ensures Check(a).Fail? && Check(a).error.SubstitutionsNotPairs? ==> Check(a).error.subs == a.upperSubs
    ensures Check(a).Fail? && Check(a).error.RepeatCharUpperAlph? ==> !IsUniqueAsWritten(a.upper)
    ensures Check(a).Fail? && Check(a).error.RepeatCharLowerAlph? ==> IsUniqueAsWritten(a.upper) && !IsUniqueAsWritten(a.lower)
  {
  }

  /** The letters and the joined substitutions of each case hold no character twice. */
  predicate LettersDistinct(a: LangAlphabet) {
    IsUnique(a.upper) && IsUnique(a.lower) && IsUnique(Concat(a.lowerSubs)) && IsUnique(Concat(a.upperSubs))
  }

  /** Every character of `s` is ASCII. */
  predicate Ascii(s: string) {
    forall i :: 0 <= i < |s| ==> s[i] as int < 0x80
  }

  /** On ASCII text the checks of `init` rule every repeat out. */
  lemma AsciiDistinct(a: LangAlphabet)
    requires Check(a) == Pass
    requires Ascii(a.upper) && Ascii(a.lower) && Ascii(Concat(a.lowerSubs)) && Ascii(Concat(a.upperSubs))
    ensures LettersDistinct(a)
  {
    IsUniqueAsWrittenAscii(a.upper);
    IsUniqueAsWrittenAscii(a.lower);
    IsUniqueAsWrittenAscii(Concat(a.lowerSubs));
    IsUniqueAsWrittenAscii(Concat(a.upperSubs));
  }

  /** Letters without repeats pass the repeated-character tests of `init`. */
  lemma DistinctPasses(a: LangAlphabet)
    requires LettersDistinct(a)
    ensures IsUniqueAsWritten(a.upper) && IsUniqueAsWritten(a.lower)
    ensures IsUniqueAsWritten(Concat(a.lowerSubs)) && IsUniqueAsWritten(Concat(a.upperSubs))
  {
    UniqueAsWritten(a.upper);
    UniqueAsWritten(a.lower);
    UniqueAsWritten(Concat(a.lowerSubs));
    UniqueAsWritten(Concat(a.upperSubs));
  }

  /** `init` accepts the uppercase alphabet `ÉBB`, whose `B` repeats. */
  lemma CheckMissesRepeat()
    ensures Check(LangAlphabet("ÉBB", "xyz", [], [], [0, 0, 0], map[])) == Pass
    ensures !LettersDistinct(LangAlphabet("ÉBB", "xyz", [], [], [0, 0, 0], map[]))
  {
    var u := "ÉBB";
    assert ByteOffset(u, 1) == 2 && ByteOffset(u, 2) == 3;
    assert u[1] == u[2];
    var l := "xyz";
    assert IsUnique(l) by {
      assert l[0] != l[1] && l[0] != l[2] && l[1] != l[2];
    }
    UniqueAsWritten(l);
    assert Concat([]) == [];
    IsUniqueEmpty();
    UniqueAsWritten([]);
  }

  /** Joined pairs keep each pair at positions `2i` and `2i+1`. */
  lemma {:induction false} ConcatPairs(subs: seq<string>)
    requires AllPairs(subs)
    ensures |Concat(subs)| == 2 * |subs|
    ensures forall i :: 0 <= i < |subs| ==> Concat(subs)[2 * i] == subs[i][0] && Concat(subs)[2 * i + 1] == subs[i][1]
  {
    if subs != [] {
      var p := subs[..|subs| - 1];
      assert AllPairs(p) by {
        forall i | 0 <= i < |p| ensures |p[i]| == 2 { assert p[i] == subs[i]; }
      }
      ConcatPairs(p);
      forall i | 0 <= i < |subs|
        ensures Concat(subs)[2 * i] == subs[i][0] && Concat(subs)[2 * i + 1] == subs[i][1]
      {
        if i < |p| { assert p[i] == subs[i]; }
      }
    }
  }

  /**
   * With unique joined pairs, no character occurs twice: the sources are
   * distinct, and no source is any pair's target.
   */
  lemma UniquePairs(subs: seq<string>)
    requires AllPairs(subs) && IsUnique(Concat(subs))
    ensures forall i, j :: 0 <= i < |subs| && 0 <= j < |subs| && i != j ==> subs[i][0] != subs[j][0]
    ensures forall i, j :: 0 <= i < |subs| && 0 <= j < |subs| ==> subs[i][0] != subs[j][1]
  {
    ConcatPairs(subs);
    var c := Concat(subs);
    forall i, j | 0 <= i < |subs| && 0 <= j < |subs| && i != j ensures subs[i][0] != subs[j][0] {
      if i < j { assert c[2 * i] != c[2 * j]; } else { assert c[2 * j] != c[2 * i]; }
    }
    forall i, j | 0 <= i < |subs| && 0 <= j < |subs| ensures subs[i][0] != subs[j][1] {
      if 2 * i < 2 * j + 1 { assert c[2 * i] != c[2 * j + 1]; } else { assert c[2 * j + 1] != c[2 * i]; }
    }
  }

  /* ------------------------------------------------------------------ */
  /*                         the char_to_cp table                       */
  /* ------------------------------------------------------------------ */

  /** The table after the first `k` rounds of inserting `upper[i]` and then `lower[i]` at `i`. */
  function LetterMap(upper: string, lower: string, k: nat): map<char, int>
    requires k <= |upper| && k <= |lower|
  {
    if k == 0 then map[]
    else LetterMap(upper, lower, k - 1)[upper[k - 1] := k - 1][lower[k - 1] := k - 1]
  }

  /** The table holds exactly the letters inserted so far. */
  lemma {:induction false} LetterMapKeys(upper: string, lower: string, k: nat)
    requires k <= |upper| && k <= |lower|
    ensures forall c :: c in LetterMap(upper, lower, k) <==> c in upper[..k] || c in lower[..k]
  {
    if k > 0 {
      LetterMapKeys(upper, lower, k - 1);
      assert upper[..k] == upper[..k - 1] + [upper[k - 1]];
      assert lower[..k] == lower[..k - 1] + [lower[k - 1]];
    }
  }

  /**
   * For unique alphabets whose upper and lower letters coincide only at the
   * same index, each letter ends at its own index.
   */
  lemma {:induction false} LetterMapValues(upper: string, lower: string, k: nat)
    requires k <= |upper| && k <= |lower| && IsUnique(upper) && IsUnique(lower)
    requires forall i, j :: 0 <= i < |upper| && 0 <= j < |lower| && upper[i] == lower[j] ==> i == j
    ensures forall i :: 0 <= i < k ==> upper[i] in LetterMap(upper, lower, k) && LetterMap(upper, lower, k)[upper[i]] == i
    ensures forall i :: 0 <= i < k ==> lower[i] in LetterMap(upper, lower, k) && LetterMap(upper, lower, k)[lower[i]] == i
    ensures forall c :: c in LetterMap(upper, lower, k) ==> 0 <= LetterMap(upper, lower, k)[c] < k
  {
    if k > 0 {
      LetterMapValues(upper, lower, k - 1);
      var m := LetterMap(upper, lower, k);
      forall i | 0 <= i < k - 1 ensures m[upper[i]] == i && m[lower[i]] == i {
        assert upper[i] != upper[k - 1] && lower[i] != lower[k - 1];
        assert upper[i] != lower[k - 1] && lower[i] != upper[k - 1];
      }
    }
  }

  /** The table after the first `k` substitutions: each source gets its target's code point. */
  function AliasMap(m: map<char, int>, subs: seq<string>, k: nat): (r: map<char, int>)
    requires k <= |subs|
    requires forall j :: 0 <= j < |subs| && |subs[j]| >= 2 ==> subs[j][1] in m
    ensures m.Keys <= r.Keys
  {
    if k == 0 then m
    else
      var p := AliasMap(m, subs, k - 1);
      var sub := subs[k - 1];
      if |sub| >= 2 then p[sub[0] := p[sub[1]]] else p
  }

  /**
   * With sources outside the table and distinct from one another, the
   * substitutions leave the existing entries alone and give each source its
   * target's code point.
   */
  lemma {:induction false} AliasMapProps(m: map<char, int>, subs: seq<string>, k: nat)
    requires k <= |subs| && AllPairs(subs)
    requires forall j :: 0 <= j < |subs| ==> subs[j][1] in m && subs[j][0] !in m
    requires forall i, j :: 0 <= i < |subs| && 0 <= j < |subs| && i != j ==> subs[i][0] != subs[j][0]
    ensures forall c :: c in m ==> AliasMap(m, subs, k)[c] == m[c]
    ensures forall j :: 0 <= j < k ==> subs[j][0] in AliasMap(m, subs, k) && AliasMap(m, subs, k)[subs[j][0]] == m[subs[j][1]]
    ensures forall c :: c in AliasMap(m, subs, k) ==> c in m || exists j :: 0 <= j < k && subs[j][0] == c
  {
    if k > 0 {
      AliasMapProps(m, subs, k - 1);
    }
  }

  /**
   * The letter layout the table is meant for: no character is both an upper
   * and a lower letter, and substitution sources are not letters of either
   * alphabet nor sources in the other case.
   */
  predicate Canonical(a: LangAlphabet) {
    && LettersDistinct(a)
    && (forall i, j :: 0 <= i < |a.upper| && 0 <= j < |a.lower| ==> a.upper[i] != a.lower[j])
    && (forall j :: 0 <= j < |a.lowerSubs| && |a.lowerSubs[j]| > 0 ==>
          a.lowerSubs[j][0] !in a.upper && a.lowerSubs[j][0] !in a.lower)
    && (forall j :: 0 <= j < |a.upperSubs| && |a.upperSubs[j]| > 0 ==>
          a.upperSubs[j][0] !in a.upper && a.upperSubs[j][0] !in a.lower)
    && (forall i, j :: 0 <= i < |a.lowerSubs| && 0 <= j < |a.upperSubs| && |a.lowerSubs[i]| > 0 && |a.upperSubs[j]| > 0 ==>
          a.lowerSubs[i][0] != a.upperSubs[j][0])
  }

  /** The table once the letters are in. */
  function Letters(a: LangAlphabet): map<char, int>
    requires |a.upper| == |a.lower|
  {
    LetterMap(a.upper, a.lower, |a.upper|)
  }

  /** The table once the letters and the lower substitutions are in. */
  function LowerPass(a: LangAlphabet): map<char, int>
    requires Check(a) == Pass
  {
    CheckAccepts(a);
    LetterMapKeys(a.upper, a.lower, |a.upper|);
    assert a.lower[..|a.upper|] == a.lower;
    AliasMap(Letters(a), a.lowerSubs, |a.lowerSubs|)
  }

  /** `char_to_cp` after a successful `init`. */
  function CharToCp(a: LangAlphabet): map<char, int>
    requires Check(a) == Pass
  {
    CheckAccepts(a);
    LetterMapKeys(a.upper, a.lower, |a.upper|);
    assert a.upper[..|a.upper|] == a.upper;
    AliasMap(LowerPass(a), a.upperSubs, |a.upperSubs|)
  }

  /** The letters and one case's substitutions, stated on the fields alone. */
  lemma LettersThenAliases(upper: string, lower: string, subs: seq<string>)
    requires |upper| == |lower| && IsUnique(upper) && IsUnique(lower)
    requires forall i, j :: 0 <= i < |upper| && 0 <= j < |lower| ==> upper[i] != lower[j]
    requires AllPairs(subs) && IsUnique(Concat(subs))
    requires forall j :: 0 <= j < |subs| ==> subs[j][1] in lower
    requires forall j :: 0 <= j < |subs| && |subs[j]| > 0 ==> subs[j][0] !in upper && subs[j][0] !in lower
    ensures forall j :: 0 <= j < |subs| && |subs[j]| >= 2 ==> subs[j][1] in LetterMap(upper, lower, |upper|)
    ensures forall i :: 0 <= i < |upper| ==>
      upper[i] in AliasMap(LetterMap(upper, lower, |upper|), subs, |subs|)
      && AliasMap(LetterMap(upper, lower, |upper|), subs, |subs|)[upper[i]] == i
      && lower[i] in AliasMap(LetterMap(upper, lower, |upper|), subs, |subs|)
      && AliasMap(LetterMap(upper, lower, |upper|), subs, |subs|)[lower[i]] == i
    ensures forall j :: 0 <= j < |subs| ==>
      subs[j][0] in AliasMap(LetterMap(upper, lower, |upper|), subs, |subs|)
      && subs[j][1] in AliasMap(LetterMap(upper, lower, |upper|), subs, |subs|)
      && AliasMap(LetterMap(upper, lower, |upper|), subs, |subs|)[subs[j][0]]
         == AliasMap(LetterMap(upper, lower, |upper|), subs, |subs|)[subs[j][1]]
    ensures forall c :: c in AliasMap(LetterMap(upper, lower, |upper|), subs, |subs|) ==>
      0 <= AliasMap(LetterMap(upper, lower, |upper|), subs, |subs|)[c] < |upper|
    ensures forall c :: c in AliasMap(LetterMap(upper, lower, |upper|), subs, |subs|) ==>
      (|| c in upper || c in lower || (exists j :: 0 <= j < |subs| && subs[j][0] == c))
  {
    var n := |upper|;
    LetterMapKeys(upper, lower, n);
    LetterMapValues(upper, lower, n);
    assert upper[..n] == upper && lower[..n] == lower;
    UniquePairs(subs);
    AliasMapProps(LetterMap(upper, lower, n), subs, |subs|);
  }

  /** The letters and the lower substitutions, on a canonical layout. */
  lemma LowerPassProps(a: LangAlphabet)
    requires Check(a) == Pass && Canonical(a)
    ensures forall i :: 0 <= i < |a.upper| ==>
      a.upper[i] in LowerPass(a) && LowerPass(a)[a.upper[i]] == i && a.lower[i] in LowerPass(a) && LowerPass(a)[a.lower[i]] == i
    ensures forall j :: 0 <= j < |a.lowerSubs| ==>
      a.lowerSubs[j][0] in LowerPass(a) && a.lowerSubs[j][1] in LowerPass(a) && LowerPass(a)[a.lowerSubs[j][0]] == LowerPass(a)[a.lowerSubs[j][1]]
    ensures forall c :: c in LowerPass(a) ==> 0 <= LowerPass(a)[c] < |a.upper|
    ensures forall c :: c in LowerPass(a) ==>
      (|| c in a.upper || c in a.lower
       || (exists j :: 0 <= j < |a.lowerSubs| && a.lowerSubs[j][0] == c))
  {
    CheckAccepts(a);
    LettersThenAliases(a.upper, a.lower, a.lowerSubs);
    assert LowerPass(a) == AliasMap(LetterMap(a.upper, a.lower, |a.upper|), a.lowerSubs, |a.lowerSubs|);
  }

  /**
   * After a successful `init` on a canonical layout, `upper[i]` and
   * `lower[i]` map to `i`, every substitution source maps to its target's
   * code point, every code point is below the alphabet length, and the table
   * holds nothing else.
   */
  lemma CharToCpProps(a: LangAlphabet)
    requires Check(a) == Pass && Canonical(a)
    ensures forall i :: 0 <= i < |a.upper| ==>
      a.upper[i] in CharToCp(a) && CharToCp(a)[a.upper[i]] == i && a.lower[i] in CharToCp(a) && CharToCp(a)[a.lower[i]] == i
    ensures forall j :: 0 <= j < |a.lowerSubs| ==>
      a.lowerSubs[j][0] in CharToCp(a) && a.lowerSubs[j][1] in CharToCp(a) && CharToCp(a)[a.lowerSubs[j][0]] == CharToCp(a)[a.lowerSubs[j][1]]
    ensures forall j :: 0 <= j < |a.upperSubs| ==>
      a.upperSubs[j][0] in CharToCp(a) && a.upperSubs[j][1] in CharToCp(a) && CharToCp(a)[a.upperSubs[j][0]] == CharToCp(a)[a.upperSubs[j][1]]
    ensures forall c :: c in CharToCp(a) ==> 0 <= CharToCp(a)[c] < |a.upper|
    ensures forall c :: c in CharToCp(a) ==>
      (|| c in a.upper || c in a.lower
       || (exists j :: 0 <= j < |a.lowerSubs| && a.lowerSubs[j][0] == c)
       || (exists j :: 0 <= j < |a.upperSubs| && a.upperSubs[j][0] == c))
  {
    CharToCpLetters(a);
    CharToCpAliases(a);
    CharToCpKeys(a);
  }

  /** The letters of both cases map to their own position. */
  lemma CharToCpLetters(a: LangAlphabet)
    requires Check(a) == Pass && Canonical(a)
    ensures forall i :: 0 <= i < |a.upper| ==>
      a.upper[i] in CharToCp(a) && CharToCp(a)[a.upper[i]] == i && a.lower[i] in CharToCp(a) && CharToCp(a)[a.lower[i]] == i
  {
    assert AllPairs(a.lowerSubs) && AllPairs(a.upperSubs);
    var m1 := LowerPass(a);
    UpperSourcesFresh(a);
    UniquePairs(a.upperSubs);
    AliasMapProps(m1, a.upperSubs, |a.upperSubs|);
    assert CharToCp(a) == AliasMap(m1, a.upperSubs, |a.upperSubs|);
    LowerPassProps(a);
  }

  /** Each substitution source maps where its target does. */
  lemma CharToCpAliases(a: LangAlphabet)
    requires Check(a) == Pass && Canonical(a)
    ensures forall j :: 0 <= j < |a.lowerSubs| ==>
      a.lowerSubs[j][0] in CharToCp(a) && a.lowerSubs[j][1] in CharToCp(a) && CharToCp(a)[a.lowerSubs[j][0]] == CharToCp(a)[a.lowerSubs[j][1]]
    ensures forall j :: 0 <= j < |a.upperSubs| ==>
      a.upperSubs[j][0] in CharToCp(a) && a.upperSubs[j][1] in CharToCp(a) && CharToCp(a)[a.upperSubs[j][0]] == CharToCp(a)[a.upperSubs[j][1]]
  {
    assert AllPairs(a.lowerSubs) && AllPairs(a.upperSubs);
    var m1 := LowerPass(a);
    UpperSourcesFresh(a);
    UniquePairs(a.upperSubs);
    AliasMapProps(m1, a.upperSubs, |a.upperSubs|);
    assert CharToCp(a) == AliasMap(m1, a.upperSubs, |a.upperSubs|);
    LowerPassProps(a);
  }

  /** Every key is a letter or a substitution source, with a code point below the length. */
  lemma CharToCpKeys(a: LangAlphabet)
    requires Check(a) == Pass && Canonical(a)
    ensures forall c :: c in CharToCp(a) ==> 0 <= CharToCp(a)[c] < |a.upper|
    ensures forall c :: c in CharToCp(a) ==>
      (|| c in a.upper || c in a.lower
       || (exists j :: 0 <= j < |a.lowerSubs| && a.lowerSubs[j][0] == c)
       || (exists j :: 0 <= j < |a.upperSubs| && a.upperSubs[j][0] == c))
  {
    assert AllPairs(a.lowerSubs) && AllPairs(a.upperSubs);
    var m1 := LowerPass(a);
    UpperSourcesFresh(a);
    UniquePairs(a.upperSubs);
    AliasMapProps(m1, a.upperSubs, |a.upperSubs|);
    assert CharToCp(a) == AliasMap(m1, a.upperSubs, |a.upperSubs|);
    LowerPassProps(a);
    forall c | c in CharToCp(a)
      ensures 0 <= CharToCp(a)[c] < |a.upper|
      ensures || c in a.upper || c in a.lower
              || (exists j :: 0 <= j < |a.lowerSubs| && a.lowerSubs[j][0] == c)
              || (exists j :: 0 <= j < |a.upperSubs| && a.upperSubs[j][0] == c)
    {
      if c !in m1 {
        var j :| 0 <= j < |a.upperSubs| && a.upperSubs[j][0] == c;
        assert CharToCp(a)[c] == m1[a.upperSubs[j][1]];
      }
    }
  }

  /** The upper substitutions find their targets in the table and their sources outside it. */
  lemma UpperSourcesFresh(a: LangAlphabet)
    requires Check(a) == Pass && Canonical(a)
    ensures forall j :: 0 <= j < |a.upperSubs| ==> a.upperSubs[j][1] in LowerPass(a) && a.upperSubs[j][0] !in LowerPass(a)
  {
    CheckAccepts(a);
    LowerPassProps(a);
    var m1 := LowerPass(a);
    forall j | 0 <= j < |a.upperSubs| ensures a.upperSubs[j][1] in m1 && a.upperSubs[j][0] !in m1 {
      var t := a.upperSubs[j][1];
      var k :| 0 <= k < |a.upper| && a.upper[k] == t;
    }
  }

  /** The two substitution passes of a successful `init`, and the targets each one looks up. */
  lemma InitTables(a: LangAlphabet)
    requires Check(a) == Pass
    ensures |a.upper| == |a.lower| == a.Length()
    ensures forall j :: 0 <= j < |a.lowerSubs| && |a.lowerSubs[j]| >= 2 ==> a.lowerSubs[j][1] in Letters(a)
    ensures LowerPass(a) == AliasMap(Letters(a), a.lowerSubs, |a.lowerSubs|)
    ensures forall j :: 0 <= j < |a.upperSubs| && |a.upperSubs[j]| >= 2 ==> a.upperSubs[j][1] in LowerPass(a)
    ensures CharToCp(a) == AliasMap(LowerPass(a), a.upperSubs, |a.upperSubs|)
  {
    CheckAccepts(a);
    LetterMapKeys(a.upper, a.lower, |a.upper|);
    assert a.upper[..|a.upper|] == a.upper && a.lower[..|a.upper|] == a.lower;
  }

  /** The letter loop of `init`: `upper[i]` and `lower[i]` go in with code point `i`, for `i` below `n`. */
  method InsertLetters(upper: string, lower: string, n: nat) returns (m: map<char, int>)
    requires n <= |upper| && n <= |lower|
    ensures m == LetterMap(upper, lower, n)
  {
    m := map[];
    for i := 0 to n
      invariant m == LetterMap(upper, lower, i)
    {
      m := m[upper[i] := i];
      m := m[lower[i] := i];
    }
  }

  /**
   * One substitution loop of `init`: the first character of each pair
   * takes the code point its second character has by then; entries
   * shorter than two characters are skipped.
   */
  method InsertSubs(m0: map<char, int>, subs: seq<string>) returns (m: map<char, int>)
    requires forall j :: 0 <= j < |subs| && |subs[j]| >= 2 ==> subs[j][1] in m0
    ensures m == AliasMap(m0, subs, |subs|)
  {
    m := m0;
    for j := 0 to |subs|
      invariant m == AliasMap(m0, subs, j)
    {
      var sub := subs[j];
      if |sub| >= 2 {
        m := m[sub[0] := m[sub[1]]];
      }
    }
  }

  /**
   * `init`: clear `char_to_cp`, run the checks, and on success insert the
   * letters and then the lower and the upper substitutions. The result
   * depends only on the other fields, so running `init` twice changes nothing.
   */
  method Init(a: LangAlphabet) returns (r: Outcome<Error>, b: LangAlphabet)
    ensures r == Check(a)
    ensures r == Pass ==> b == a.(charToCp := CharToCp(a))
    ensures r != Pass ==> b == a.(charToCp := map[])
  {
    b := a.(charToCp := map[]);
    r := Check(a);
    if r != Pass {
      return;
    }
    InitTables(a);
    var m := InsertLetters(a.upper, a.lower, a.Length());
    m := InsertSubs(m, a.lowerSubs);
    m := InsertSubs(m, a.upperSubs);
    b := a.(charToCp := m);
  }
}
