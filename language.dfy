/**
 * `Language` (`src/lang/language.rs`): a set of alphabets of distinct
 * lengths, one of them selected, and a table of string substitutions. The
 * letter queries all read the selected alphabet, so they are stated here as
 * functions of a `LangAlphabet` value; the ciphers take that value.
 */
module Languages {
  import opened Wrappers
  import opened LangAlphabets

  /* ------------------------------------------------------------------ */
  /*                      queries on the current alphabet               */
  /* ------------------------------------------------------------------ */

  /** `is_letter`: the character has a code point. */
  predicate IsLetter(a: LangAlphabet, c: char) {
    c in a.charToCp
  }

  /** `get_cp`, whose assertion demands a letter. */
  function GetCp(a: LangAlphabet, c: char): int
    requires IsLetter(a, c)
  {
    a.charToCp[c]
  }

  /** `cp_count`: the alphabet length. */
  function CpCount(a: LangAlphabet): int {
    |a.upper|
  }

  /** `max_cp`. */
  function MaxCp(a: LangAlphabet): int {
    CpCount(a) - 1
  }

  /** `valid_cp`. */
  predicate ValidCp(a: LangAlphabet, cp: int) {
    0 <= cp <= MaxCp(a)
  }

  /** `cp_to_upper`: the `cp`-th uppercase letter. */
  function CpToUpper(a: LangAlphabet, cp: int): (r: char)
    requires ValidCp(a, cp)
    ensures r in a.upper
  {
    a.upper[cp]
  }

  /** `cp_to_lower`: the `cp`-th lowercase letter; `nth(..).unwrap()` also needs `cp` inside `lower`. */
  function CpToLower(a: LangAlphabet, cp: int): (r: char)
    requires ValidCp(a, cp) && cp < |a.lower|
    ensures r in a.lower
  {
    a.lower[cp]
  }

  /** Some substitution string starts with `c`. */
  predicate StartsSome(subs: seq<string>, c: char) {
    exists j :: 0 <= j < |subs| && |subs[j]| > 0 && subs[j][0] == c
  }

  /** `is_upper`: an uppercase letter or the source of an uppercase substitution. */
  predicate IsUpper(a: LangAlphabet, c: char) {
    c in a.upper || StartsSome(a.upperSubs, c)
  }

  /** `is_lower`: a lowercase letter or the source of a lowercase substitution. */
  predicate IsLower(a: LangAlphabet, c: char) {
    c in a.lower || StartsSome(a.lowerSubs, c)
  }

  /** `c` has a code point with a letter of each case. */
  predicate Mapped(a: LangAlphabet, c: char) {
    IsLetter(a, c) && ValidCp(a, GetCp(a, c)) && GetCp(a, c) < |a.lower|
  }

  /** `update_cp`: the letter of code point `cp` in the case of `c`. */
  function UpdateCp(a: LangAlphabet, c: char, cp: int): char
    requires ValidCp(a, cp) && cp < |a.lower| && IsLetter(a, c)
  {
    if IsUpper(a, c) then CpToUpper(a, cp) else CpToLower(a, cp)
  }

  /** `to_lower`. */
  function ToLower(a: LangAlphabet, c: char): char
    requires IsUpper(a, c) ==> Mapped(a, c)
  {
    if IsUpper(a, c) then CpToLower(a, GetCp(a, c)) else c
  }

  /** `to_upper`. */
  function ToUpper(a: LangAlphabet, c: char): char
    requires IsLower(a, c) ==> Mapped(a, c)
  {
    if IsLower(a, c) then CpToUpper(a, GetCp(a, c)) else c
  }

  /**
   * What a successful `init` on a canonical layout leaves: both cases of the
   * same length, `upper[i]` and `lower[i]` at code point `i`, every code
   * point valid, exactly the letters of either case mapped, and no lowercase
   * letter counted as uppercase.
   */
  predicate WF(a: LangAlphabet) {
    && |a.upper| == |a.lower|
    && (forall i :: 0 <= i < |a.upper| ==> a.upper[i] in a.charToCp && a.charToCp[a.upper[i]] == i)
    && (forall i :: 0 <= i < |a.lower| ==> a.lower[i] in a.charToCp && a.charToCp[a.lower[i]] == i)
    && (forall c :: c in a.charToCp ==> 0 <= a.charToCp[c] < |a.upper|)
    && (forall c :: c in a.charToCp ==> IsUpper(a, c) || IsLower(a, c))
    && (forall c :: IsUpper(a, c) ==> c in a.charToCp)
    && (forall c :: IsLower(a, c) ==> c in a.charToCp)
    && (forall i :: 0 <= i < |a.lower| ==> !IsUpper(a, a.lower[i]))
  }

  /** `init` on a canonical layout gives a well-formed alphabet. */
  lemma InitWellFormed(a: LangAlphabet)
    requires Check(a) == Pass && Canonical(a)
    ensures WF(a.(charToCp := CharToCp(a)))
  {
    CheckAccepts(a);
    CharToCpProps(a);
    TableWellFormed(a.(charToCp := CharToCp(a)));
  }

  /** The facts `init` establishes about the table are the well-formedness conditions. */
  lemma TableWellFormed(b: LangAlphabet)
    requires |b.upper| == |b.lower| && Canonical(b) && AllPairs(b.lowerSubs) && AllPairs(b.upperSubs)
    requires forall i :: 0 <= i < |b.upper| ==>
      b.upper[i] in b.charToCp && b.charToCp[b.upper[i]] == i && b.lower[i] in b.charToCp && b.charToCp[b.lower[i]] == i
    requires forall j :: 0 <= j < |b.lowerSubs| ==> b.lowerSubs[j][0] in b.charToCp
    requires forall j :: 0 <= j < |b.upperSubs| ==> b.upperSubs[j][0] in b.charToCp
    requires forall c :: c in b.charToCp ==> 0 <= b.charToCp[c] < |b.upper|
    requires forall c :: c in b.charToCp ==>
      (|| c in b.upper || c in b.lower
       || (exists j :: 0 <= j < |b.lowerSubs| && b.lowerSubs[j][0] == c)
       || (exists j :: 0 <= j < |b.upperSubs| && b.upperSubs[j][0] == c))
    ensures WF(b)
  {
    forall c | IsUpper(b, c) ensures c in b.charToCp {
      if c !in b.upper {
        var j :| 0 <= j < |b.upperSubs| && |b.upperSubs[j]| > 0 && b.upperSubs[j][0] == c;
      }
    }
    forall c | IsLower(b, c) ensures c in b.charToCp {
      if c !in b.lower {
        var j :| 0 <= j < |b.lowerSubs| && |b.lowerSubs[j]| > 0 && b.lowerSubs[j][0] == c;
      }
    }
    forall c | c in b.charToCp ensures IsUpper(b, c) || IsLower(b, c) {
      if c !in b.upper && c !in b.lower {
        if exists j :: 0 <= j < |b.lowerSubs| && b.lowerSubs[j][0] == c {
          var j :| 0 <= j < |b.lowerSubs| && b.lowerSubs[j][0] == c;
          assert |b.lowerSubs[j]| > 0;
        } else {
          var j :| 0 <= j < |b.upperSubs| && b.upperSubs[j][0] == c;
          assert |b.upperSubs[j]| > 0;
        }
      }
    }
  }

  /** Under `WF`, every letter of either case is mapped. */
  lemma WFMapped(a: LangAlphabet, c: char)
    requires WF(a)
    ensures IsUpper(a, c) || IsLower(a, c) || IsLetter(a, c) ==> Mapped(a, c)
  {
  }

  /**
   * `update_cp` yields a letter of code point `cp` and keeps the case of the
   * letter it replaces.
   */
  lemma UpdateCpProps(a: LangAlphabet, c: char, cp: int)
    requires WF(a) && ValidCp(a, cp) && IsLetter(a, c)
    ensures IsLetter(a, UpdateCp(a, c, cp)) && GetCp(a, UpdateCp(a, c, cp)) == cp
    ensures IsUpper(a, UpdateCp(a, c, cp)) <==> IsUpper(a, c)
  {
  }

  /** `to_lower` and `to_upper` leave non-letters alone and keep every letter's code point. */
  lemma CaseMapProps(a: LangAlphabet, c: char)
    requires WF(a)
    ensures !IsLetter(a, c) ==> ToLower(a, c) == c && ToUpper(a, c) == c
    ensures IsLetter(a, c) ==> IsLetter(a, ToLower(a, c)) && GetCp(a, ToLower(a, c)) == GetCp(a, c)
    ensures IsLetter(a, c) ==> IsLetter(a, ToUpper(a, c)) && GetCp(a, ToUpper(a, c)) == GetCp(a, c)
    ensures IsLetter(a, c) ==> IsUpper(a, ToUpper(a, c)) && !IsUpper(a, ToLower(a, c))
  {
    WFMapped(a, c);
  }

  /* ------------------------------------------------------------------ */
  /*                          string conversions                        */
  /* ------------------------------------------------------------------ */

  /** The number of letters of `s`. */
  function LetterCount(a: LangAlphabet, s: string): nat {
    if s == [] then 0
    else LetterCount(a, s[..|s| - 1]) + (if IsLetter(a, s[|s| - 1]) then 1 else 0)
  }

  /** `string_to_vec`: the code points of the letters of `s`, in order. */
  function StringToVec(a: LangAlphabet, s: string): seq<int> {
    if s == [] then []
    else StringToVec(a, s[..|s| - 1]) + (if IsLetter(a, s[|s| - 1]) then [GetCp(a, s[|s| - 1])] else [])
  }

  /** Conversion keeps one entry per letter, each a valid code point. */
  lemma {:induction false} StringToVecProps(a: LangAlphabet, s: string)
    requires WF(a)
    ensures |StringToVec(a, s)| == LetterCount(a, s)
    ensures forall i :: 0 <= i < |StringToVec(a, s)| ==> ValidCp(a, StringToVec(a, s)[i])
  {
    if s != [] {
      StringToVecProps(a, s[..|s| - 1]);
    }
  }

  /** Conversion distributes over concatenation. */
  lemma {:induction false} StringToVecAppend(a: LangAlphabet, s: string, t: string)
    ensures StringToVec(a, s + t) == StringToVec(a, s) + StringToVec(a, t)
  {
    if t == [] {
      assert s + t == s;
    } else {
      var t' := t[..|t| - 1];
      assert (s + t)[..|s + t| - 1] == s + t';
      StringToVecAppend(a, s, t');
    }
  }

  /** `vec_to_string`: the uppercase letter of each code point. */
  function VecToString(a: LangAlphabet, v: seq<int>): (r: string)
    requires forall i :: 0 <= i < |v| ==> ValidCp(a, v[i])
    ensures |r| == |v|
  {
    seq(|v|, i requires 0 <= i < |v| => CpToUpper(a, v[i]))
  }

  /** Turning code points into letters and back gives the code points again. */
  lemma {:induction false} VecToStringRoundTrip(a: LangAlphabet, v: seq<int>)
    requires WF(a) && forall i :: 0 <= i < |v| ==> ValidCp(a, v[i])
    ensures StringToVec(a, VecToString(a, v)) == v
  {
    if v != [] {
      var p := v[..|v| - 1];
      VecToStringRoundTrip(a, p);
      var s := VecToString(a, v);
      assert s[..|s| - 1] == VecToString(a, p);
    }
  }

  /* ------------------------------------------------------------------ */
  /*                          substitution table                        */
  /* ------------------------------------------------------------------ */

  /** `substitute_string`: every table key replaced by its string, every other character kept. */
  function Substituted(table: map<char, string>, s: string): string {
    if s == [] then []
    else
      var c := s[|s| - 1];
      Substituted(table, s[..|s| - 1]) + (if c in table then table[c] else [c])
  }

  /** Substitution distributes over concatenation. */
  lemma {:induction false} SubstitutedAppend(table: map<char, string>, s: string, t: string)
    ensures Substituted(table, s + t) == Substituted(table, s) + Substituted(table, t)
  {
    if t == [] {
      assert s + t == s;
    } else {
      var t' := t[..|t| - 1];
      assert (s + t)[..|s + t| - 1] == s + t';
      SubstitutedAppend(table, s, t');
    }
  }

  /** A string without table keys comes out unchanged. */
  lemma {:induction false} SubstitutedNoKeys(table: map<char, string>, s: string)
    requires forall i :: 0 <= i < |s| ==> s[i] !in table
    ensures Substituted(table, s) == s
  {
    if s != [] {
      SubstitutedNoKeys(table, s[..|s| - 1]);
    }
  }

  /** "Æ" becomes "AE" under the table `Æ -> AE`. */
  lemma SubstitutedExample()
    ensures Substituted(map['Æ' := "AE"], "ÆON") == "AEON"
  {
    var t := map['Æ' := "AE"];
    assert "ÆON"[..2] == "ÆO" && "ÆO"[..1] == "Æ" && "Æ"[..0] == [];
  }

  /* ------------------------------------------------------------------ */
  /*                          alphabet selection                        */
  /* ------------------------------------------------------------------ */

  /** The first position of an alphabet of length `len`, as `iter().position` finds it. */
  function FirstWithLength(alphabets: seq<LangAlphabet>, len: nat): (r: Option<nat>)
    ensures r.Some? ==> r.value < |alphabets| && alphabets[r.value].Length() == len
    ensures r.Some? ==> forall i :: 0 <= i < r.value ==> alphabets[i].Length() != len
    ensures r.None? <==> forall i :: 0 <= i < |alphabets| ==> alphabets[i].Length() != len
  {
    if alphabets == [] then None
    else if alphabets[0].Length() == len then Some(0)
    else match FirstWithLength(alphabets[1..], len)
      case None => None
      case Some(i) => Some(i + 1)
  }

  /** No two alphabets share a length. */
  predicate DistinctLengths(alphabets: seq<LangAlphabet>) {
    forall i, j :: 0 <= i < j < |alphabets| ==> alphabets[i].Length() != alphabets[j].Length()
  }

  /** `retain` with `length() != len`. */
  function WithoutLength(alphabets: seq<LangAlphabet>, len: nat): seq<LangAlphabet> {
    if alphabets == [] then []
    else
      var rest := WithoutLength(alphabets[..|alphabets| - 1], len);
      var x := alphabets[|alphabets| - 1];
      if x.Length() != len then rest + [x] else rest
  }

  /** The retained alphabets are exactly those of another length. */
  lemma {:induction false} WithoutLengthMembers(alphabets: seq<LangAlphabet>, len: nat)
    ensures forall x :: x in WithoutLength(alphabets, len) <==> x in alphabets && x.Length() != len
  {
    if alphabets != [] {
      var p := alphabets[..|alphabets| - 1];
      WithoutLengthMembers(p, len);
      assert alphabets == p + [alphabets[|alphabets| - 1]];
    }
  }

  /** When no alphabet has that length, nothing is removed; the others keep their order. */
  lemma {:induction false} WithoutLengthKeeps(alphabets: seq<LangAlphabet>, len: nat)
    ensures |WithoutLength(alphabets, len)| <= |alphabets|
    ensures (forall i :: 0 <= i < |alphabets| ==> alphabets[i].Length() != len) ==> WithoutLength(alphabets, len) == alphabets
  {
    if alphabets != [] {
      var p := alphabets[..|alphabets| - 1];
      WithoutLengthKeeps(p, len);
      assert alphabets == p + [alphabets[|alphabets| - 1]];
    }
  }

  /** Removing alphabets keeps the lengths distinct. */
  lemma {:induction false} WithoutLengthDistinct(alphabets: seq<LangAlphabet>, len: nat)
    requires DistinctLengths(alphabets)
    ensures DistinctLengths(WithoutLength(alphabets, len))
  {
    if alphabets != [] {
      var p := alphabets[..|alphabets| - 1];
      var x := alphabets[|alphabets| - 1];
      assert DistinctLengths(p);
      WithoutLengthDistinct(p, len);
      WithoutLengthMembers(p, len);
      var rest := WithoutLength(p, len);
      forall y | y in rest ensures y.Length() != x.Length() {
        var k :| 0 <= k < |p| && p[k] == y;
        assert alphabets[k] == y;
      }
    }
  }

  /** Appending an alphabet whose length is new keeps the lengths distinct. */
  lemma AppendDistinct(alphabets: seq<LangAlphabet>, x: LangAlphabet)
    requires DistinctLengths(alphabets)
    requires FirstWithLength(alphabets, x.Length()).None?
    ensures DistinctLengths(alphabets + [x])
  {
  }

  /** The message `add_alphabet` returns for a length that is already present. */
  const LENGTH_EXISTS := "Alphabet with given length already exists"

  class Language {
    var name: string
    var alphabetLen: int
    var alphabets: seq<LangAlphabet>
    var substitutionTable: map<char, string>
    var selectedAlphIdx: nat

    /** `Default`: no alphabets, an empty table, the first position selected. */
    constructor ()
      ensures name == [] && alphabetLen == 0 && alphabets == [] && substitutionTable == map[] && selectedAlphIdx == 0
    {
      name := [];
      alphabetLen := 0;
      alphabets := [];
      substitutionTable := map[];
      selectedAlphIdx := 0;
    }

    /** `alph`: the selected alphabet; indexing panics when none is selected. */
    function Alph(): LangAlphabet
      reads this
      requires selectedAlphIdx < |alphabets|
    {
      alphabets[selectedAlphIdx]
    }

    /** `set_alph_len`: select the first alphabet of length `len`, if there is one. */
    method SetAlphLen(len: nat) returns (found: bool)
      modifies this
      ensures found <==> exists i :: 0 <= i < |alphabets| && alphabets[i].Length() == len
      ensures found ==> selectedAlphIdx < |alphabets| && Alph().Length() == len
      ensures found ==> forall i :: 0 <= i < selectedAlphIdx ==> alphabets[i].Length() != len
      ensures !found ==> selectedAlphIdx == old(selectedAlphIdx)
      ensures alphabets == old(alphabets) && substitutionTable == old(substitutionTable)
      ensures name == old(name) && alphabetLen == old(alphabetLen)
    {
      var position := FirstWithLength(alphabets, len);
      if position.Some? {
        selectedAlphIdx := position.value;
        found := true;
        assert alphabets[selectedAlphIdx].Length() == len;
      } else {
        found := false;
        assert !exists i :: 0 <= i < |alphabets| && alphabets[i].Length() == len;
      }
    }

    /** `add_alphabet`: append an alphabet unless one of its length is already present. */
    method AddAlphabet(alphabet: LangAlphabet) returns (r: Outcome<string>)
      modifies this
      ensures (exists i :: 0 <= i < old(|alphabets|) && old(alphabets[i]).Length() == alphabet.Length())
        ==> r == Fail(LENGTH_EXISTS) && alphabets == old(alphabets)
      ensures (forall i :: 0 <= i < old(|alphabets|) ==> old(alphabets[i]).Length() != alphabet.Length())
        ==> r == Pass && alphabets == old(alphabets) + [alphabet]
      ensures old(DistinctLengths(alphabets)) ==> DistinctLengths(alphabets)
      ensures substitutionTable == old(substitutionTable) && selectedAlphIdx == old(selectedAlphIdx)
      ensures name == old(name) && alphabetLen == old(alphabetLen)
    {
      if FirstWithLength(alphabets, alphabet.Length()).Some? {
        r := Fail(LENGTH_EXISTS);
      } else {
        if DistinctLengths(alphabets) {
          AppendDistinct(alphabets, alphabet);
        }
        alphabets := alphabets + [alphabet];
        r := Pass;
      }
    }

    /** `del_alphabet`: drop every alphabet of length `len`; the selection index is left as it was. */
    method DelAlphabet(len: nat)
      modifies this
      ensures alphabets == WithoutLength(old(alphabets), len)
      ensures substitutionTable == old(substitutionTable) && selectedAlphIdx == old(selectedAlphIdx)
      ensures name == old(name) && alphabetLen == old(alphabetLen)
    {
      alphabets := WithoutLength(alphabets, len);
    }

    /** `add_substitution`, whose assertion demands a new key. */
    method AddSubstitution(from: char, to: string)
      modifies this
      requires from !in substitutionTable
      ensures substitutionTable == old(substitutionTable)[from := to]
      ensures alphabets == old(alphabets) && selectedAlphIdx == old(selectedAlphIdx)
      ensures name == old(name) && alphabetLen == old(alphabetLen)
    {
      substitutionTable := substitutionTable[from := to];
    }

    /** `del_substitution`, whose assertion demands an existing key. */
    method DelSubstitution(from: char)
      modifies this
      requires from in substitutionTable
      ensures substitutionTable == old(substitutionTable) - {from}
      ensures alphabets == old(alphabets) && selectedAlphIdx == old(selectedAlphIdx)
      ensures name == old(name) && alphabetLen == old(alphabetLen)
    {
      substitutionTable := substitutionTable - {from};
    }

    /** `clear_substitutions`. */
    method ClearSubstitutions()
      modifies this
      ensures substitutionTable == map[]
      ensures alphabets == old(alphabets) && selectedAlphIdx == old(selectedAlphIdx)
      ensures name == old(name) && alphabetLen == old(alphabetLen)
    {
      substitutionTable := map[];
    }

    /** `substitute_string`: the loop pushing each replacement or the character itself. */
    method SubstituteString(s: string) returns (result: string)
      ensures result == Substituted(substitutionTable, s)
    {
      result := [];
      for i := 0 to |s|
        invariant result == Substituted(substitutionTable, s[..i])
      {
        var c := s[i];
        assert s[..i + 1][..i] == s[..i];
        if c in substitutionTable {
          result := result + substitutionTable[c];
        } else {
          result := result + [c];
        }
      }
      assert s[..|s|] == s;
    }
  }
}
