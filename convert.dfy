/**
 * `src/convert.rs`: code points of the Latin alphabet as `u16` values,
 * 'A' being 0. `to_string` adds 65 in `u8` arithmetic, `from_str` and
 * `from_string` upper-case each character and subtract 65 in `u16`
 * arithmetic. Both wrap around here, as a release build does.
 */
module Convert {
  /** The code of 'A'. */
  const Base: int := 65

  predicate IsU16(v: seq<int>) {
    forall k :: 0 <= k < |v| ==> 0 <= v[k] < 0x1_0000
  }

  /** ASCII upper case: 'a'..'z' become 'A'..'Z', everything else stays. */
  function Upper(c: char): (r: char)
    ensures 'a' <= c <= 'z' ==> r as int == c as int - 32
    ensures !('a' <= c <= 'z') ==> r == c
  {
    if 'a' <= c <= 'z' then (c as int - 32) as char else c
  }

  /** `((i as u8) + 65) as char`, wrapping in `u8`. */
  function ToChar(i: int): (r: char)
    requires 0 <= i < 0x1_0000
    ensures r as int < 256
    ensures i < 256 - Base ==> r as int == Base + i
  {
    ((i % 256 + Base) % 256) as char
  }

  /** `(upper as u16) - 65`, wrapping in `u16`. */
  function ToValue(c: char): (r: int)
    ensures 0 <= r < 0x1_0000
    ensures 'A' <= Upper(c) <= 'Z' ==> r == Upper(c) as int - Base
  {
    (Upper(c) as int % 0x1_0000 - Base) % 0x1_0000
  }

  /** `to_string`: each value becomes one character, `i` becoming the character of code `65 + i`. */
  function ToString(arr: seq<int>): (r: string)
    requires IsU16(arr)
    ensures |r| == |arr|
    ensures forall k :: 0 <= k < |arr| && arr[k] < 256 - Base ==> r[k] as int == Base + arr[k]
  {
    seq(|arr|, k requires 0 <= k < |arr| => ToChar(arr[k]))
  }

  /** `from_str` and `from_string`: each character becomes one value, a letter its place in the alphabet. */
  function FromString(s: string): (r: seq<int>)
    ensures |r| == |s| && IsU16(r)
    ensures forall k :: 0 <= k < |s| && 'A' <= Upper(s[k]) <= 'Z' ==> r[k] == Upper(s[k]) as int - Base
  {
    seq(|s|, k requires 0 <= k < |s| => ToValue(s[k]))
  }

  predicate IsLetter(c: char) {
    'a' <= c <= 'z' || 'A' <= c <= 'Z'
  }

  /** A letter, in either case, becomes its place in the alphabet, 0 to 25. */
  lemma LetterValue(c: char)
    requires IsLetter(c)
    ensures 0 <= ToValue(c) < 26
    ensures ToChar(ToValue(c)) == Upper(c)
  {
  }

  /** Values of letters survive a trip through characters. */
  lemma ValuesRoundTrip(arr: seq<int>)
    requires forall k :: 0 <= k < |arr| ==> 0 <= arr[k] < 26
    ensures FromString(ToString(arr)) == arr
  {
    var s := ToString(arr);
    forall k | 0 <= k < |arr| ensures FromString(s)[k] == arr[k] {
      assert s[k] as int == Base + arr[k];
      assert Upper(s[k]) == s[k];
    }
  }

  /** A string of letters comes back upper-cased. */
  lemma LettersRoundTrip(s: string)
    requires forall k :: 0 <= k < |s| ==> IsLetter(s[k])
    ensures ToString(FromString(s)) == seq(|s|, k requires 0 <= k < |s| => Upper(s[k]))
  {
    var v := FromString(s);
    forall k | 0 <= k < |s| ensures ToString(v)[k] == Upper(s[k]) {
      LetterValue(s[k]);
    }
  }

  /** Past 'Z' the `u8` sum wraps: 191 and above land back at code 0. */
  lemma ToCharWraps(i: int)
    requires 256 - Base <= i < 256
    ensures ToChar(i) as int == i + Base - 256
  {
  }

  /** Below 'A' the `u16` difference wraps: a space becomes 65503. */
  lemma SpaceWraps()
    ensures FromString(" ") == [0x1_0000 + 32 - Base]
  {
    assert ToValue(' ') == 65503;
  }

  /** "convert" gives [2, 14, 13, 21, 4, 17, 19]. */
  lemma ExampleLower()
    ensures FromString("convert") == [2, 14, 13, 21, 4, 17, 19]
  {
    var r := FromString("convert");
    assert r[0] == 2 && r[1] == 14 && r[2] == 13 && r[3] == 21;
    assert r[4] == 4 && r[5] == 17 && r[6] == 19;
  }

  /** "CONVERT" gives the same values. */
  lemma ExampleUpper()
    ensures FromString("CONVERT") == [2, 14, 13, 21, 4, 17, 19]
  {
    var r := FromString("CONVERT");
    assert r[0] == 2 && r[1] == 14 && r[2] == 13 && r[3] == 21;
    assert r[4] == 4 && r[5] == 17 && r[6] == 19;
  }

  /** [2, 14, 13, 21, 4, 17, 19] gives back "CONVERT"; the empty cases. */
  lemma ExampleBack()
    ensures ToString([2, 14, 13, 21, 4, 17, 19]) == "CONVERT"
    ensures FromString("") == [] && ToString([]) == ""
  {
    var r := ToString([2, 14, 13, 21, 4, 17, 19]);
    assert r[0] == 'C' && r[1] == 'O' && r[2] == 'N' && r[3] == 'V';
    assert r[4] == 'E' && r[5] == 'R' && r[6] == 'T';
  }
}
