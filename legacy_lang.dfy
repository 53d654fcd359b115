/**
 * The older `Language` of `src/lang.rs`: one alphabet whose code points are
 * added, edited and removed one at a time, with optional aliases (extra
 * characters mapped to an existing code point) and a substitution table.
 */
module LegacyLang {
  import opened LangAlphabets
  import Languages
  import English

  /** `retain(|_, v| *v != cp)`: every entry of code point `cp` removed. */
  function WithoutCp(m: map<char, int>, cp: int): map<char, int> {
    map c | c in m && m[c] != cp :: m[c]
  }

  class Language {
    var name: string
    var charToCp: map<char, int>
    var upper: seq<char>
    var lower: seq<char>
    var alphabetLen: int
    var substitutionTable: map<char, string>

    /**
     * The layout every operation keeps: both alphabets have `alphabetLen`
     * letters, `upper[i]` and `lower[i]` map to `i`, and every entry (letter
     * or alias) holds a valid code point.
     */
    predicate Valid()
      reads this
    {
      && |upper| == |lower| == alphabetLen
      && (forall i :: 0 <= i < |upper| ==> upper[i] in charToCp && charToCp[upper[i]] == i)
      && (forall i :: 0 <= i < |lower| ==> lower[i] in charToCp && charToCp[lower[i]] == i)
      && (forall c :: c in charToCp ==> 0 <= charToCp[c] < alphabetLen)
    }

    /** `Default`: the empty language. */
    constructor ()
      ensures Valid() && alphabetLen == 0 && charToCp == map[] && substitutionTable == map[]
      ensures name == [] && upper == [] && lower == []
    {
      name := [];
      charToCp := map[];
      upper := [];
      lower := [];
      alphabetLen := 0;
      substitutionTable := map[];
    }

    /* ---------------------------- queries ---------------------------- */

    /** `is_letter`: a letter or an alias. */
    predicate IsLetter(c: char)
      reads this
    {
      c in charToCp
    }

    /** `get_cp`, whose assertion demands a letter. */
    function GetCp(c: char): int
      reads this
      requires IsLetter(c)
    {
      charToCp[c]
    }

    /** `cp_count`. */
    function CpCount(): int
      reads this
    {
      alphabetLen
    }

    /** `max_cp`. */
    function MaxCp(): int
      reads this
    {
      CpCount() - 1
    }

    /** `valid_cp`. */
    predicate ValidCp(cp: int)
      reads this
    {
      0 <= cp <= MaxCp()
    }

    /** `cp_to_upper`; the vector index also needs `cp` inside `upper`. */
    function CpToUpper(cp: int): char
      reads this
      requires ValidCp(cp) && cp < |upper|
    {
      upper[cp]
    }

    /** `cp_to_lower`; the vector index also needs `cp` inside `lower`. */
    function CpToLower(cp: int): char
      reads this
      requires ValidCp(cp) && cp < |lower|
    {
      lower[cp]
    }

    /** `is_upper`: a letter of the uppercase alphabet (aliases have no case). */
    predicate IsUpper(c: char)
      reads this
    {
      c in upper
    }

    /** `is_lower`. */
    predicate IsLower(c: char)
      reads this
    {
      c in lower
    }

    /** `update_cp`: the letter of `cp` in the case of `c`. */
    function UpdateCp(c: char, cp: int): char
      reads this
      requires ValidCp(cp) && cp < |upper| && cp < |lower| && IsLetter(c)
    {
      if IsUpper(c) then CpToUpper(cp) else CpToLower(cp)
    }

    /** `to_lower`. */
    function ToLower(c: char): char
      reads this
      requires IsUpper(c) ==> IsLetter(c) && ValidCp(GetCp(c)) && GetCp(c) < |lower|
    {
      if IsUpper(c) then CpToLower(GetCp(c)) else c
    }

    /** `to_upper`. */
    function ToUpper(c: char): char
      reads this
      requires IsLower(c) ==> IsLetter(c) && ValidCp(GetCp(c)) && GetCp(c) < |upper|
    {
      if IsLower(c) then CpToUpper(GetCp(c)) else c
    }

    /** The language seen as one alphabet without substitutions. */
    function View(): LangAlphabet
      reads this
    {
      LangAlphabet(upper, lower, [], [], [], charToCp)
    }

    /** `string_to_vec`: the same filter-and-map as the newer `Language`. */
    function StringToVec(s: string): seq<int>
      reads this
    {
      Languages.StringToVec(View(), s)
    }

    /** `vec_to_string`: the uppercase letter of each code point. */
    function VecToString(v: seq<int>): (r: string)
      reads this
      requires forall i :: 0 <= i < |v| ==> 0 <= v[i] <= MaxCp() && v[i] < |upper|
      ensures |r| == |v|
    {
      var up := upper;
      seq(|v|, i requires 0 <= i < |v| && 0 <= v[i] < |up| => up[v[i]])
    }

    /* --------------------------- alphabet setup ---------------------- */

    /**
     * `new_cp`: append a code point with letters `u` and `l`, neither of which
     * may be in use; it returns the new code point, one past the old maximum.
     */
    method NewCp(u: char, l: char) returns (cp: int)
      modifies this
      requires u !in charToCp && l !in charToCp && u !in upper && l !in lower
      ensures cp == old(alphabetLen)
      ensures charToCp == old(charToCp)[u := cp][l := cp]
      ensures upper == old(upper) + [u] && lower == old(lower) + [l]
      ensures alphabetLen == old(alphabetLen) + 1
      ensures substitutionTable == old(substitutionTable) && name == old(name)
      ensures old(Valid()) ==> Valid() && GetCp(u) == cp && GetCp(l) == cp
    {
      cp := MaxCp() + 1;
      charToCp := charToCp[u := cp][l := cp];
      upper := upper + [u];
      lower := lower + [l];
      alphabetLen := alphabetLen + 1;
    }

    /**
     * `edit_cp`: give code point `cp` the letters `u` and `l`, dropping every
     * character that mapped to `cp` before; other code points keep their
     * entries. The layout survives when `u` and `l` were not letters of
     * another code point.
     */
    method EditCp(cp: int, u: char, l: char)
      modifies this
      requires ValidCp(cp) && cp < |upper| && cp < |lower|
      ensures charToCp == WithoutCp(old(charToCp), cp)[u := cp][l := cp]
      ensures upper == old(upper)[cp := u] && lower == old(lower)[cp := l]
      ensures alphabetLen == old(alphabetLen) && substitutionTable == old(substitutionTable) && name == old(name)
      ensures forall c :: c in old(charToCp) && old(charToCp)[c] != cp && c != u && c != l ==>
        c in charToCp && charToCp[c] == old(charToCp)[c]
      ensures forall c :: c in charToCp && charToCp[c] == cp ==> c == u || c == l
      ensures old(Valid()) && (u in old(charToCp) ==> old(charToCp)[u] == cp) && (l in old(charToCp) ==> old(charToCp)[l] == cp)
        ==> Valid()
    {
      charToCp := WithoutCp(charToCp, cp)[u := cp][l := cp];
      upper := upper[cp := u];
      lower := lower[cp := l];
    }

    /** `add_cp_alias`: map a new character to an existing code point. */
    method AddCpAlias(cp: int, alias: char)
      modifies this
      requires alias !in charToCp && ValidCp(cp)
      ensures charToCp == old(charToCp)[alias := cp]
      ensures IsLetter(alias) && GetCp(alias) == cp
      ensures upper == old(upper) && lower == old(lower) && alphabetLen == old(alphabetLen)
      ensures substitutionTable == old(substitutionTable) && name == old(name)
      ensures old(Valid()) ==> Valid()
    {
      charToCp := charToCp[alias := cp];
    }

    /** `del_cp_alias`: remove one entry; removing a letter of the alphabets breaks the layout. */
    method DelCpAlias(alias: char)
      modifies this
      requires alias in charToCp
      ensures charToCp == old(charToCp) - {alias}
      ensures !IsLetter(alias)
      ensures upper == old(upper) && lower == old(lower) && alphabetLen == old(alphabetLen)
      ensures substitutionTable == old(substitutionTable) && name == old(name)
      ensures old(Valid()) && alias !in upper && alias !in lower ==> Valid()
    {
      charToCp := charToCp - {alias};
    }

    /**
     * `pop_cp`: remove the greatest code point, its letters and all its
     * aliases; the assertion demands at least one code point.
     */
    method PopCp() returns (cp: int)
      modifies this
      requires alphabetLen >= 1
      ensures cp == old(alphabetLen) - 1
      ensures charToCp == WithoutCp(old(charToCp), cp)
      ensures forall c :: c in charToCp ==> charToCp[c] != cp
      ensures upper == (if old(upper) == [] then [] else old(upper)[..|old(upper)| - 1])
      ensures lower == (if old(lower) == [] then [] else old(lower)[..|old(lower)| - 1])
      ensures alphabetLen == old(alphabetLen) - 1
      ensures substitutionTable == old(substitutionTable) && name == old(name)
      ensures old(Valid()) ==> Valid() && old(upper)[cp] !in charToCp && old(lower)[cp] !in charToCp
    {
      cp := MaxCp();
      if upper != [] {
        upper := upper[..|upper| - 1];
      }
      if lower != [] {
        lower := lower[..|lower| - 1];
      }
      charToCp := WithoutCp(charToCp, cp);
      alphabetLen := alphabetLen - 1;
    }

    /** `clear_all_cp`: no letters, no aliases, length 0. */
    method ClearAllCp()
      modifies this
      ensures alphabetLen == 0 && upper == [] && lower == [] && charToCp == map[]
      ensures forall c :: !IsLetter(c)
      ensures Valid()
      ensures substitutionTable == old(substitutionTable) && name == old(name)
    {
      alphabetLen := 0;
      upper := [];
      lower := [];
      charToCp := map[];
    }

    /* ------------------------- substitution table -------------------- */

    /** `add_substitution`, whose assertion demands a new key. */
    method AddSubstitution(from: char, to: string)
      modifies this
      requires from !in substitutionTable
      ensures substitutionTable == old(substitutionTable)[from := to]
      ensures charToCp == old(charToCp) && upper == old(upper) && lower == old(lower)
      ensures alphabetLen == old(alphabetLen) && name == old(name)
    {
      substitutionTable := substitutionTable[from := to];
    }

    /** `del_substitution`, whose assertion demands an existing key. */
    method DelSubstitution(from: char)
      modifies this
      requires from in substitutionTable
      ensures substitutionTable == old(substitutionTable) - {from}
      ensures charToCp == old(charToCp) && upper == old(upper) && lower == old(lower)
      ensures alphabetLen == old(alphabetLen) && name == old(name)
    {
      substitutionTable := substitutionTable - {from};
    }

    /** `clear_substitutions`. */
    method ClearSubstitutions()
      modifies this
      ensures substitutionTable == map[]
      ensures charToCp == old(charToCp) && upper == old(upper) && lower == old(lower)
      ensures alphabetLen == old(alphabetLen) && name == old(name)
    {
      substitutionTable := map[];
    }

    /** `substitute_string`: the same loop as the newer `Language`. */
    method SubstituteString(s: string) returns (result: string)
      ensures result == Languages.Substituted(substitutionTable, s)
    {
      result := [];
      for i := 0 to |s|
        invariant result == Languages.Substituted(substitutionTable, s[..i])
      {
        var c := s[i];
        assert s[..i + 1][..i] == s[..i];
        if c in substitutionTable {
          result := result + substitutionTable[c];
        } else {
          result := result + [c];
        }
      }
      assert s[..|s|] == s;
    }
  }

  /* ------------------------------ laws ------------------------------- */

  /** An alias added and then deleted leaves the table as it was. */
  lemma AliasRoundTrip(m: map<char, int>, alias: char, cp: int)
    requires alias !in m
    ensures (m[alias := cp]) - {alias} == m
  {
    assert forall c :: c in (m[alias := cp]) - {alias} <==> c in m;
  }

  /** Under the layout, `update_cp` gives a letter of code point `cp`. */
  lemma UpdateCpCode(l: Language, c: char, cp: int)
    requires l.Valid() && l.ValidCp(cp) && l.IsLetter(c)
    ensures l.IsLetter(l.UpdateCp(c, cp)) && l.GetCp(l.UpdateCp(c, cp)) == cp
  {
  }

  /** With no character in both alphabets, `update_cp` also keeps the case. */
  lemma UpdateCpCase(l: Language, c: char, cp: int)
    requires l.Valid() && l.ValidCp(cp) && l.IsLetter(c)
    requires forall i, j :: 0 <= i < |l.upper| && 0 <= j < |l.lower| ==> l.upper[i] != l.lower[j]
    ensures l.IsUpper(l.UpdateCp(c, cp)) <==> l.IsUpper(c)
  {
    if !l.IsUpper(c) {
      assert l.UpdateCp(c, cp) == l.lower[cp];
    }
  }

  /** `valid_cp` holds exactly on `0..len`: for 26 letters, -1 and 26 are invalid. */
  lemma ValidCpRange(l: Language, cp: int)
    requires l.Valid()
    ensures l.ValidCp(cp) <==> 0 <= cp < |l.upper|
    ensures l.alphabetLen == 26 ==> !l.ValidCp(-1) && !l.ValidCp(26) && l.ValidCp(0) && l.ValidCp(25)
  {
  }

  /**
   * The documented set-up: `new_cp` on `A`/`a` through `Z`/`z` gives the
   * English alphabet, with `A` and `a` at 0 and `Z` and `z` at 25.
   */
  method NewEnglish() returns (l: Language)
    ensures fresh(l) && l.Valid() && l.alphabetLen == 26
    ensures l.upper == English.Upper() && l.lower == English.Lower() && l.charToCp == English.Alphabet().charToCp
  {
    l := new Language();
    var up := English.Upper();
    var lo := English.Lower();
    forall i | 0 <= i < |up| ensures FreshPair(up, lo, i) {
      English.FreshLetters(i);
    }
    AddLetters(l, up, lo);
    English.Table();
  }

  /** Neither letter of pair `i` is in use once the pairs before it are in. */
  predicate FreshPair(up: string, lo: string, i: int)
    requires 0 <= i < |up| == |lo|
  {
    up[i] !in LetterMap(up, lo, i) && lo[i] !in LetterMap(up, lo, i) && up[i] !in up[..i] && lo[i] !in lo[..i]
  }

  /**
   * `new_cp` on each pair `up[i]`, `lo[i]` in turn, starting from the
   * empty language: when no letter is already in use, pair `i` gets code
   * point `i`.
   */
  method AddLetters(l: Language, up: string, lo: string)
    modifies l
    requires l.Valid() && l.alphabetLen == 0 && l.upper == [] && l.lower == [] && l.charToCp == map[] && l.substitutionTable == map[]
    requires |up| == |lo|
    requires forall i :: 0 <= i < |up| ==> FreshPair(up, lo, i)
    ensures l.Valid() && l.alphabetLen == |up| && l.substitutionTable == map[]
    ensures l.upper == up && l.lower == lo && l.charToCp == LetterMap(up, lo, |up|)
  {
    for i := 0 to |up|
      invariant l.Valid() && l.alphabetLen == i && l.substitutionTable == map[]
      invariant l.upper == up[..i] && l.lower == lo[..i]
      invariant l.charToCp == LetterMap(up, lo, i)
    {
      assert FreshPair(up, lo, i);
      assert up[..i + 1] == up[..i] + [up[i]] && lo[..i + 1] == lo[..i] + [lo[i]];
      var cp := l.NewCp(up[i], lo[i]);
    }
    assert up[..|up|] == up && lo[..|lo|] == lo;
  }

  /** `string_to_vec("hello")` is `[7, 4, 11, 11, 14]`. */
  lemma HelloExample(l: Language)
    requires l.Valid() && l.charToCp == English.Alphabet().charToCp
    ensures l.StringToVec("hello") == [7, 4, 11, 11, 14]
  {
    English.HelloCodes();
    var a := l.View();
    assert "hello"[..4] == "hell" && "hell"[..3] == "hel" && "hel"[..2] == "he" && "he"[..1] == "h" && "h"[..0] == [];
    assert Languages.StringToVec(a, "h") == [7];
    assert Languages.StringToVec(a, "he") == [7, 4];
    assert Languages.StringToVec(a, "hel") == [7, 4, 11];
    assert Languages.StringToVec(a, "hell") == [7, 4, 11, 11];
  }

  /** `vec_to_string([7, 4, 11, 11, 14])` is `"HELLO"`. */
  lemma HelloString(l: Language)
    requires l.Valid() && l.upper == English.Upper()
    ensures l.VecToString([7, 4, 11, 11, 14]) == "HELLO"
  {
    var up := English.Upper();
    assert up[7] == 'H' && up[4] == 'E' && up[11] == 'L' && up[14] == 'O';
    var v := [7, 4, 11, 11, 14];
    var r := l.VecToString(v);
    assert r[0] == 'H' && r[1] == 'E' && r[2] == 'L' && r[3] == 'L' && r[4] == 'O';
  }
}
