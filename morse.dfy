/**
 * Morse code (`src/cipher/monoalph/morse.rs`), over the fixed tables
 * `LETTERS` (space, `a`..`z`, `1`..`9`, `0`) and `MORSE`. Encryption
 * lowercases the message, keeps the characters of `LETTERS` and writes
 * their codes separated by single spaces, a space becoming "/".
 * Decryption splits the message into words at "/", reads each word's
 * codes, and joins the words with single spaces.
 */
module Morse {
  import opened Wrappers

  /* ------------------------------------------------------------------ */
  /*                                tables                              */
  /* ------------------------------------------------------------------ */

  /** `LETTERS[k]`: a space, then `a`..`z`, then `1`..`9`, then `0`. */
  function Letter(k: int): char
    requires 0 <= k < 37
  {
    if k == 0 then ' ' else if k <= 26 then (96 + k) as char else if k <= 35 then (22 + k) as char else '0'
  }

  /** `MORSE[k]`. */
  function Code(k: int): string
    requires 0 <= k < 37
  {
    match k
    case 0 => "/"
    case 1 => ".-"
    case 2 => "-..."
    case 3 => "-.-."
    case 4 => "-.."
    case 5 => "."
    case 6 => "..-."
    case 7 => "--."
    case 8 => "...."
    case 9 => ".."
    case 10 => ".---"
    case 11 => "-.-"
    case 12 => ".-.."
    case 13 => "--"
    case 14 => "-."
    case 15 => "---"
    case 16 => ".--."
    case 17 => "--.-"
    case 18 => ".-."
    case 19 => "..."
    case 20 => "-"
    case 21 => "..-"
    case 22 => "...-"
    case 23 => ".--"
    case 24 => "-..-"
    case 25 => "-.--"
    case 26 => "--.."
    case 27 => ".----"
    case 28 => "..---"
    case 29 => "...--"
    case 30 => "....-"
    case 31 => "....."
    case 32 => "-...."
    case 33 => "--..."
    case 34 => "---.."
    case 35 => "----."
    case _ => "-----"
  }

  /** `LETTERS.iter().position(..)`, searching from entry `k`. */
  function FindLetter(c: char, k: nat): (r: Option<nat>)
    ensures r.Some? ==> k <= r.value < 37
    decreases 37 - k
  {
    if k >= 37 then None else if Letter(k) == c then Some(k) else FindLetter(c, k + 1)
  }

  /** `MORSE.iter().position(..)`, searching from entry `k`. */
  function FindCode(s: string, k: nat): (r: Option<nat>)
    ensures r.Some? ==> k <= r.value < 37
    decreases 37 - k
  {
    if k >= 37 then None else if Code(k) == s then Some(k) else FindCode(s, k + 1)
  }

  /** The entry of `c` in `LETTERS`, worked out from its character code. */
  function Slot(c: char): (r: Option<nat>)
    ensures r.Some? ==> r.value < 37
  {
    if c == ' ' then Some(0)
    else if 'a' <= c <= 'z' then Some(c as int - 96)
    else if '1' <= c <= '9' then Some(c as int - 22)
    else if c == '0' then Some(36)
    else None
  }

  lemma LetterSlot(k: int, c: char)
    requires 0 <= k < 37
    ensures Letter(k) == c <==> Slot(c) == Some(k)
  {
  }

  /** The search through `LETTERS` finds the one entry `Slot` names, and nothing else. */
  lemma {:induction false} FindLetterSlot(c: char, k: nat)
    requires k <= 37
    ensures FindLetter(c, k) == if Slot(c).Some? && Slot(c).value >= k then Slot(c) else None
    decreases 37 - k
  {
    if k < 37 {
      LetterSlot(k, c);
      FindLetterSlot(c, k + 1);
    }
  }

  /** A code other than "/": dots and dashes only. */
  predicate Dotted(s: string) {
    |s| > 0 && forall i :: 0 <= i < |s| ==> s[i] == '.' || s[i] == '-'
  }

  /** "/" is the code of the space; every other code is dots and dashes. */
  lemma CodeShape(k: int)
    requires 0 <= k < 37
    ensures k == 0 ==> Code(k) == "/"
    ensures k > 0 ==> Dotted(Code(k))
  {
  }

  /** Dots, dashes and the slash as base-4 digits. */
  function Digit(c: char): int {
    if c == '.' then 1 else if c == '-' then 2 else 3
  }

  /** The digit of the `i`-th character, 0 past the end. */
  function DigitAt(s: string, i: nat): int {
    if i < |s| then Digit(s[i]) else 0
  }

  /**
   * A number for each string of at most five characters, as long as every
   * code: its characters as base-4 digits, the first the lowest.
   */
  function Sig(s: string): int {
    DigitAt(s, 0) + 4 * DigitAt(s, 1) + 16 * DigitAt(s, 2) + 64 * DigitAt(s, 3) + 256 * DigitAt(s, 4)
  }

  /** The entry with a given number: the inverse of `Sig` on the codes. */
  function SigSlot(x: int): int {
    match x
    case 3 => 0
    case 9 => 1
    case 86 => 2
    case 102 => 3
    case 22 => 4
    case 1 => 5
    case 101 => 6
    case 26 => 7
    case 85 => 8
    case 5 => 9
    case 169 => 10
    case 38 => 11
    case 89 => 12
    case 10 => 13
    case 6 => 14
    case 42 => 15
    case 105 => 16
    case 154 => 17
    case 25 => 18
    case 21 => 19
    case 2 => 20
    case 37 => 21
    case 149 => 22
    case 41 => 23
    case 150 => 24
    case 166 => 25
    case 90 => 26
    case 681 => 27
    case 677 => 28
    case 661 => 29
    case 597 => 30
    case 341 => 31
    case 342 => 32
    case 346 => 33
    case 362 => 34
    case 426 => 35
    case _ => 36
  }

  lemma SigOfCodes0(k: int)
    requires 0 <= k < 4
    ensures SigSlot(Sig(Code(k))) == k
  {
    if k == 0 {
      assert SigSlot(Sig(Code(0))) == 0;
    } else if k == 1 {
      assert SigSlot(Sig(Code(1))) == 1;
    } else if k == 2 {
      assert SigSlot(Sig(Code(2))) == 2;
    } else {
      assert SigSlot(Sig(Code(3))) == 3;
    }
  }

  lemma SigOfCodes1(k: int)
    requires 4 <= k < 8
    ensures SigSlot(Sig(Code(k))) == k
  {
    if k == 4 {
      assert SigSlot(Sig(Code(4))) == 4;
    } else if k == 5 {
      assert SigSlot(Sig(Code(5))) == 5;
    } else if k == 6 {
      assert SigSlot(Sig(Code(6))) == 6;
    } else {
      assert SigSlot(Sig(Code(7))) == 7;
    }
  }

  lemma SigOfCodes2(k: int)
    requires 8 <= k < 12
    ensures SigSlot(Sig(Code(k))) == k
  {
    if k == 8 {
      assert SigSlot(Sig(Code(8))) == 8;
    } else if k == 9 {
      assert SigSlot(Sig(Code(9))) == 9;
    } else if k == 10 {
      assert SigSlot(Sig(Code(10))) == 10;
    } else {
      assert SigSlot(Sig(Code(11))) == 11;
    }
  }

  lemma SigOfCodes3(k: int)
    requires 12 <= k < 16
    ensures SigSlot(Sig(Code(k))) == k
  {
    if k == 12 {
      assert SigSlot(Sig(Code(12))) == 12;
    } else if k == 13 {
      assert SigSlot(Sig(Code(13))) == 13;
    } else if k == 14 {
      assert SigSlot(Sig(Code(14))) == 14;
    } else {
      assert SigSlot(Sig(Code(15))) == 15;
    }
  }

  lemma SigOfCodes4(k: int)
    requires 16 <= k < 20
    ensures SigSlot(Sig(Code(k))) == k
  {
    if k == 16 {
      assert SigSlot(Sig(Code(16))) == 16;
    } else if k == 17 {
      assert SigSlot(Sig(Code(17))) == 17;
    } else if k == 18 {
      assert SigSlot(Sig(Code(18))) == 18;
    } else {
      assert SigSlot(Sig(Code(19))) == 19;
    }
  }

  lemma SigOfCodes5(k: int)
    requires 20 <= k < 24
    ensures SigSlot(Sig(Code(k))) == k
  {
    if k == 20 {
      assert SigSlot(Sig(Code(20))) == 20;
    } else if k == 21 {
      assert SigSlot(Sig(Code(21))) == 21;
    } else if k == 22 {
      assert SigSlot(Sig(Code(22))) == 22;
    } else {
      assert SigSlot(Sig(Code(23))) == 23;
    }
  }

  lemma SigOfCodes6(k: int)
    requires 24 <= k < 28
    ensures SigSlot(Sig(Code(k))) == k
  {
    if k == 24 {
      assert SigSlot(Sig(Code(24))) == 24;
    } else if k == 25 {
      assert SigSlot(Sig(Code(25))) == 25;
    } else if k == 26 {
      assert SigSlot(Sig(Code(26))) == 26;
    } else {
      assert SigSlot(Sig(Code(27))) == 27;
    }
  }

  lemma SigOfCodes7(k: int)
    requires 28 <= k < 31
    ensures SigSlot(Sig(Code(k))) == k
  {
    if k == 28 {
      assert SigSlot(Sig(Code(28))) == 28;
    } else if k == 29 {
      assert SigSlot(Sig(Code(29))) == 29;
    } else {
      assert SigSlot(Sig(Code(30))) == 30;
    }
  }

  lemma SigOfCodes8(k: int)
    requires 31 <= k < 34
    ensures SigSlot(Sig(Code(k))) == k
  {
    if k == 31 {
      assert SigSlot(Sig(Code(31))) == 31;
    } else if k == 32 {
      assert SigSlot(Sig(Code(32))) == 32;
    } else {
      assert SigSlot(Sig(Code(33))) == 33;
    }
  }

  lemma SigOfCodes9(k: int)
    requires 34 <= k < 37
    ensures SigSlot(Sig(Code(k))) == k
  {
    if k == 34 {
      assert SigSlot(Sig(Code(34))) == 34;
    } else if k == 35 {
      assert SigSlot(Sig(Code(35))) == 35;
    } else {
      assert SigSlot(Sig(Code(36))) == 36;
    }
  }

  /** `SigSlot` reads the entry back from the number of its code. */
  lemma SigOfCode(k: int)
    requires 0 <= k < 37
    ensures SigSlot(Sig(Code(k))) == k
  {
    if k < 4 {
      SigOfCodes0(k);
    } else if k < 8 {
      SigOfCodes1(k);
    } else if k < 12 {
      SigOfCodes2(k);
    } else if k < 16 {
      SigOfCodes3(k);
    } else if k < 20 {
      SigOfCodes4(k);
    } else if k < 24 {
      SigOfCodes5(k);
    } else if k < 28 {
      SigOfCodes6(k);
    } else if k < 31 {
      SigOfCodes7(k);
    } else if k < 34 {
      SigOfCodes8(k);
    } else {
      SigOfCodes9(k);
    }
  }

  /** The `MORSE` entries are pairwise distinct, so looking a code up is unambiguous. */
  lemma CodesDistinct(i: int, j: int)
    requires 0 <= i < 37 && 0 <= j < 37 && Code(i) == Code(j)
    ensures i == j
  {
    SigOfCode(i);
    SigOfCode(j);
  }

  /** Looking a code up finds its own entry. */
  lemma {:induction false} FindCodeOf(j: int, k: nat)
    requires k <= j < 37
    ensures FindCode(Code(j), k) == Some(j)
    decreases 37 - k
  {
    if Code(k) != Code(j) {
      FindCodeOf(j, k + 1);
    } else {
      CodesDistinct(j, k);
    }
  }

  /** A string that is no code is not found. */
  lemma {:induction false} FindCodeNone(s: string, k: nat)
    requires k <= 37 && forall j :: k <= j < 37 ==> Code(j) != s
    ensures FindCode(s, k) == None
    decreases 37 - k
  {
    if k < 37 {
      FindCodeNone(s, k + 1);
    }
  }

  /** The empty string is no code. */
  lemma EmptyNoCode()
    ensures FindCode("", 0) == None
  {
    forall j | 0 <= j < 37 ensures Code(j) != "" {
      CodeShape(j);
    }
    FindCodeNone("", 0);
  }

  /* ------------------------------------------------------------------ */
  /*                         characters and strings                     */
  /* ------------------------------------------------------------------ */

  /** `char::is_whitespace`: the Unicode `White_Space` characters. */
  predicate White(c: char) {
    || 9 <= c as int <= 13 || c == ' ' || c as int == 0x85 || c as int == 0xA0 || c as int == 0x1680
    || 0x2000 <= c as int <= 0x200A || c as int == 0x2028 || c as int == 0x2029 || c as int == 0x202F
    || c as int == 0x205F || c as int == 0x3000
  }

  /** Leading whitespace removed. */
  function TrimStart(s: string): (r: string)
    ensures |r| <= |s|
  {
    if s != [] && White(s[0]) then TrimStart(s[1..]) else s
  }

  /** Trailing whitespace removed. */
  function TrimEnd(s: string): (r: string)
    ensures |r| <= |s|
  {
    if s != [] && White(s[|s| - 1]) then TrimEnd(s[..|s| - 1]) else s
  }

  /** `trim`. */
  function Trim(s: string): string {
    TrimEnd(TrimStart(s))
  }

  /** `split(sep)`: the pieces between the separators, empty ones included; always at least one. */
  function Split(s: string, sep: char): (r: seq<string>)
    ensures |r| >= 1
  {
    if s == [] then [[]]
    else
      var rest := Split(s[1..], sep);
      if s[0] == sep then [[]] + rest else [[s[0]] + rest[0]] + rest[1..]
  }

  /** The pieces joined with `sep` between them. */
  function JoinWith(ws: seq<string>, sep: char): string {
    if ws == [] then [] else if |ws| == 1 then ws[0] else ws[0] + [sep] + JoinWith(ws[1..], sep)
  }

  /** ASCII `to_lowercase`. */
  function LowerChar(c: char): char {
    if 'A' <= c <= 'Z' then (c as int + 32) as char else c
  }

  function Lowered(s: string): (r: string)
    ensures |r| == |s|
  {
    seq(|s|, i requires 0 <= i < |s| => LowerChar(s[i]))
  }

  /** Every character is in `LETTERS`. */
  predicate Lettered(s: string) {
    forall i :: 0 <= i < |s| ==> FindLetter(s[i], 0).Some?
  }

  /** `filter(|c| LETTERS.contains(c))`. */
  function Kept(s: string): (r: string)
    ensures Lettered(r)
  {
    if s == [] then []
    else (if FindLetter(s[0], 0).Some? then [s[0]] else []) + Kept(s[1..])
  }

  /* ------------------------------------------------------------------ */
  /*                           encrypt and decrypt                      */
  /* ------------------------------------------------------------------ */

  /** The code of a character of `LETTERS`. */
  function CodeOf(c: char): string
    requires FindLetter(c, 0).Some?
  {
    FindLetterSlot(c, 0);
    Code(FindLetter(c, 0).value)
  }

  /** The fold of `encrypt`: each code followed by a space. */
  function Spelled(f: string): string
    requires Lettered(f)
  {
    if f == [] then [] else CodeOf(f[0]) + " " + Spelled(f[1..])
  }

  /** `encrypt`. */
  function Encrypted(msg: string): string {
    Trim(Spelled(Kept(Lowered(msg))))
  }

  /** `replace('_', "-")`. */
  function Replaced(s: string): (r: string)
    ensures |r| == |s|
  {
    seq(|s|, i requires 0 <= i < |s| => if s[i] == '_' then '-' else s[i])
  }

  /** The letters of the codes found in `MORSE`, in order; the others are dropped. */
  function Decoded(codes: seq<string>): string {
    if codes == [] then []
    else
      (match FindCode(codes[0], 0) case Some(k) => (if k < 37 then [Letter(k)] else []) case None => [])
      + Decoded(codes[1..])
  }

  /** One word of `decrypt`: dashes for underscores, trimmed, split at spaces, decoded. */
  function DecodedWord(word: string): string {
    Decoded(Split(Trim(Replaced(word)), ' '))
  }

  /** The decoded words, one for each piece. */
  function DecodedWords(pieces: seq<string>): (r: seq<string>)
    ensures |r| == |pieces|
  {
    seq(|pieces|, i requires 0 <= i < |pieces| => DecodedWord(pieces[i]))
  }

  /** The outer fold of `decrypt`: each word followed by a space. */
  function Spaced(ws: seq<string>): string {
    if ws == [] then [] else ws[0] + " " + Spaced(ws[1..])
  }

  /** `decrypt`. */
  function Decrypted(msg: string): string {
    Trim(Spaced(DecodedWords(Split(msg, '/'))))
  }

  /* ------------------------------------------------------------------ */
  /*                        split, join and trim                        */
  /* ------------------------------------------------------------------ */

  /** A separator splits its two sides. */
  lemma {:induction false} SplitAround(x: string, y: string, sep: char)
    ensures Split(x + [sep] + y, sep) == Split(x, sep) + Split(y, sep)
  {
    if x == [] {
      assert (x + [sep] + y)[1..] == y;
    } else {
      assert (x + [sep] + y)[1..] == x[1..] + [sep] + y;
      SplitAround(x[1..], y, sep);
    }
  }

  /** A string without the separator is one piece. */
  lemma {:induction false} SplitWhole(s: string, sep: char)
    requires forall i :: 0 <= i < |s| ==> s[i] != sep
    ensures Split(s, sep) == [s]
  {
    if s != [] {
      SplitWhole(s[1..], sep);
      assert s[0] != sep && [s[0]] + s[1..] == s;
    }
  }

  /** A character other than the separator joins the piece before it. */
  lemma {:induction false} SplitSnoc(x: string, c: char, sep: char)
    requires c != sep
    ensures Split(x + [c], sep) ==
      Split(x, sep)[..|Split(x, sep)| - 1] + [Split(x, sep)[|Split(x, sep)| - 1] + [c]]
  {
    if x == [] {
      assert [c][0] == c && [c][1..] == [];
      assert Split([c], sep) == [[c] + []];
      var r := Split(x, sep);
      assert x + [c] == [c] && r == [[]];
      assert r[..|r| - 1] == [] && r[|r| - 1] + [c] == [c];
      assert [c] + [] == [c];
      assert Split(x + [c], sep) == [[c]];
      assert r[..|r| - 1] + [r[|r| - 1] + [c]] == [[c]];
    } else {
      assert (x + [c])[0] == x[0] && (x + [c])[1..] == x[1..] + [c];
      SplitSnoc(x[1..], c, sep);
      if x[0] == sep {
        LastGrown([], Split(x[1..], sep), Split(x[1..] + [c], sep), c);
      } else {
        FirstGrown([x[0]], Split(x[1..], sep), Split(x[1..] + [c], sep), c);
      }
    }
  }

  /** Growing the last piece commutes with putting a piece in front. */
  lemma LastGrown(h: string, r: seq<string>, r': seq<string>, c: char)
    requires |r| >= 1 && r' == r[..|r| - 1] + [r[|r| - 1] + [c]]
    ensures [h] + r' == ([h] + r)[..|r|] + [([h] + r)[|r|] + [c]]
  {
    assert ([h] + r)[..|r|] == [h] + r[..|r| - 1];
  }

  /** Growing the last piece commutes with extending the first one. */
  lemma FirstGrown(h: string, r: seq<string>, r': seq<string>, c: char)
    requires |r| >= 1 && r' == r[..|r| - 1] + [r[|r| - 1] + [c]]
    ensures [h + r'[0]] + r'[1..] == ([h + r[0]] + r[1..])[..|r| - 1] + [([h + r[0]] + r[1..])[|r| - 1] + [c]]
  {
    if |r| > 1 {
      assert r'[1..] == r[1..|r| - 1] + [r[|r| - 1] + [c]];
      assert ([h + r[0]] + r[1..])[..|r| - 1] == [h + r[0]] + r[1..|r| - 1];
    } else {
      assert r' == [r[0] + [c]];
      assert h + r'[0] == (h + r[0]) + [c];
    }
  }

  /** A character other than the separator starts the first piece. */
  lemma SplitCons(c: char, z: string, sep: char)
    requires c != sep
    ensures Split([c] + z, sep) == [[c] + Split(z, sep)[0]] + Split(z, sep)[1..]
  {
    assert ([c] + z)[1..] == z;
  }

  /** No piece holds the separator, and joining the pieces gives back the string. */
  lemma JoinSplit(s: string, sep: char)
    ensures JoinWith(Split(s, sep), sep) == s
    ensures forall k, i :: 0 <= k < |Split(s, sep)| && 0 <= i < |Split(s, sep)[k]| ==> Split(s, sep)[k][i] != sep
    ensures forall k, i :: 0 <= k < |Split(s, sep)| && 0 <= i < |Split(s, sep)[k]| ==> Split(s, sep)[k][i] in s
  {
    JoinOfSplit(s, sep);
    SplitPieces(s, sep);
  }

  /** Joining the pieces of a split with the separator gives back the string. */
  lemma {:induction false} JoinOfSplit(s: string, sep: char)
    ensures JoinWith(Split(s, sep), sep) == s
  {
    if s != [] {
      var rest := Split(s[1..], sep);
      JoinOfSplit(s[1..], sep);
      JoinFront(s[0], rest, sep);
      assert s == [s[0]] + s[1..];
    }
  }

  /**
   * One step of `Split` seen from the joined side: putting `c` in front of
   * the pieces, as `Split` does, puts `c` in front of their join.
   */
  lemma JoinFront(c: char, rest: seq<string>, sep: char)
    requires |rest| >= 1
    ensures JoinWith(if c == sep then [[]] + rest else [[c] + rest[0]] + rest[1..], sep) == [c] + JoinWith(rest, sep)
  {
    if c == sep {
      JoinCons([], rest, sep);
    } else if |rest| == 1 {
      assert [[c] + rest[0]] + rest[1..] == [[c] + rest[0]];
    } else {
      assert rest == [rest[0]] + rest[1..];
      JoinCons(rest[0], rest[1..], sep);
      JoinCons([c] + rest[0], rest[1..], sep);
    }
  }

  /** A piece in front of a non-empty list joins with one separator. */
  lemma JoinCons(w: string, ws: seq<string>, sep: char)
    requires |ws| >= 1
    ensures JoinWith([w] + ws, sep) == w + [sep] + JoinWith(ws, sep)
  {
    assert ([w] + ws)[1..] == ws;
  }

  /** Every piece of a split is made of characters of the string other than the separator. */
  lemma {:induction false} SplitPieces(s: string, sep: char)
    ensures forall k, i :: 0 <= k < |Split(s, sep)| && 0 <= i < |Split(s, sep)[k]| ==> Split(s, sep)[k][i] != sep
    ensures forall k, i :: 0 <= k < |Split(s, sep)| && 0 <= i < |Split(s, sep)[k]| ==> Split(s, sep)[k][i] in s
  {
    if s != [] {
      var rest := Split(s[1..], sep);
      var r := Split(s, sep);
      SplitPieces(s[1..], sep);
      forall k, i | 0 <= k < |r| && 0 <= i < |r[k]|
        ensures r[k][i] != sep && r[k][i] in s
      {
        if s[0] == sep {
          assert r[k] == rest[k - 1];
          assert rest[k - 1][i] in s[1..];
        } else if k == 0 {
          if i > 0 {
            assert r[0][i] == rest[0][i - 1];
            assert rest[0][i - 1] in s[1..];
          }
        } else {
          assert r[k] == rest[k];
          assert rest[k][i] in s[1..];
        }
      }
    }
  }

  /** Splitting pieces that do not hold the separator, joined by it, gives them back. */
  lemma {:induction false} SplitJoin(cs: seq<string>, sep: char)
    requires |cs| >= 1 && forall k, i :: 0 <= k < |cs| && 0 <= i < |cs[k]| ==> cs[k][i] != sep
    ensures Split(JoinWith(cs, sep), sep) == cs
  {
    if |cs| == 1 {
      SplitWhole(cs[0], sep);
    } else {
      SplitJoin(cs[1..], sep);
      SplitWhole(cs[0], sep);
      SplitAround(cs[0], JoinWith(cs[1..], sep), sep);
      assert [cs[0]] + cs[1..] == cs;
    }
  }

  /** Leading whitespace removed with a space in front, or from a string ending in a space. */
  lemma {:induction false} TrimStartSpace(x: string)
    ensures TrimStart([' '] + x) == TrimStart(x)
    ensures TrimStart(x + " ") == TrimStart(x) + " " || TrimStart(x + " ") == []
  {
    assert ([' '] + x)[1..] == x;
    if x != [] && White(x[0]) {
      assert (x + " ")[1..] == x[1..] + " ";
      TrimStartSpace(x[1..]);
    } else if x == [] {
      assert TrimStart(" ") == TrimStart(" "[1..]);
    }
  }

  /** A space at either end does not change what `trim` gives. */
  lemma TrimSpace(x: string)
    ensures Trim(x + " ") == Trim(x)
    ensures Trim([' '] + x) == Trim(x)
  {
    TrimStartSpace(x);
    var t := TrimStart(x);
    if TrimStart(x + " ") == t + " " {
      assert (t + " ")[..|t + " "| - 1] == t;
    } else {
      assert TrimStart(x + " ") == [];
      TrimStartAllWhite(x);
    }
  }

  /** Where leading whitespace swallows a string ending in a space, the string is all whitespace. */
  lemma {:induction false} TrimStartAllWhite(x: string)
    requires TrimStart(x + " ") == []
    ensures TrimStart(x) == [] && TrimEnd([]) == []
  {
    if x != [] {
      assert (x + " ")[0] == x[0];
      assert (x + " ")[1..] == x[1..] + " ";
      TrimStartAllWhite(x[1..]);
    }
  }

  /** A string with no whitespace at its ends is its own trim. */
  lemma TrimExact(x: string)
    requires x != [] && !White(x[0]) && !White(x[|x| - 1])
    ensures Trim(x) == x
  {
  }

  lemma ReplacedSpace(x: string)
    ensures Replaced(x + " ") == Replaced(x) + " "
    ensures Replaced([' '] + x) == [' '] + Replaced(x)
  {
  }

  /** A space at either end of a word does not change what it decodes to. */
  lemma DecodedWordSpace(x: string)
    ensures DecodedWord(x + " ") == DecodedWord(x)
    ensures DecodedWord([' '] + x) == DecodedWord(x)
  {
    ReplacedSpace(x);
    TrimSpace(Replaced(x));
  }

  /* ------------------------------------------------------------------ */
  /*                          encrypt, in words                         */
  /* ------------------------------------------------------------------ */

  /** The codes of the characters of `f`. */
  function Codes(f: string): (r: seq<string>)
    requires Lettered(f)
    ensures |r| == |f|
  {
    seq(|f|, i requires 0 <= i < |f| => CodeOf(f[i]))
  }

  /** The code of a character of `LETTERS`: "/" for a space, dots and dashes otherwise. */
  lemma CodeOfShape(c: char)
    requires FindLetter(c, 0).Some?
    ensures c == ' ' ==> CodeOf(c) == "/"
    ensures c != ' ' ==> Dotted(CodeOf(c))
    ensures FindCode(CodeOf(c), 0) == FindLetter(c, 0) && Letter(FindLetter(c, 0).value) == c
  {
    FindLetterSlot(c, 0);
    var k := FindLetter(c, 0).value;
    LetterSlot(k, c);
    CodeShape(k);
    FindCodeOf(k, 0);
  }

  /** Spelling a message of `LETTERS` writes its codes, each followed by one space. */
  lemma {:induction false} SpelledJoin(f: string)
    requires Lettered(f) && f != []
    ensures Spelled(f) == JoinWith(Codes(f), ' ') + " "
  {
    if |f| > 1 {
      SpelledJoin(f[1..]);
      assert Codes(f) == [CodeOf(f[0])] + Codes(f[1..]);
      assert Codes(f)[1..] == Codes(f[1..]);
    } else {
      assert Spelled(f[1..]) == [];
    }
  }

  /** No code holds whitespace, a slash or an underscore, unless it is the slash itself. */
  lemma CodeChars(c: char, i: int)
    requires FindLetter(c, 0).Some? && 0 <= i < |CodeOf(c)|
    ensures !White(CodeOf(c)[i]) && CodeOf(c)[i] != '_'
    ensures c != ' ' ==> CodeOf(c)[i] != '/'
  {
    CodeOfShape(c);
  }

  /**
   * `encrypt` writes the codes of the lowercased message's characters
   * of `LETTERS`, separated by single spaces.
   */
  lemma EncryptedJoin(msg: string)
    ensures Kept(Lowered(msg)) == [] ==> Encrypted(msg) == []
    ensures Kept(Lowered(msg)) != [] ==> Encrypted(msg) == JoinWith(Codes(Kept(Lowered(msg))), ' ')
  {
    var f := Kept(Lowered(msg));
    if f != [] {
      SpelledTrimmed(f);
    }
  }

  /** Trimming a spelled message drops the space after its last code. */
  lemma SpelledTrimmed(f: string)
    requires Lettered(f) && f != []
    ensures Trim(Spelled(f)) == JoinWith(Codes(f), ' ')
  {
    SpelledJoin(f);
    var cs := Codes(f);
    CodesNonEmpty(f);
    var first, last := CodeOf(f[0]), CodeOf(f[|f| - 1]);
    assert cs[0] == first && cs[|cs| - 1] == last;
    CodeChars(f[0], 0);
    CodeChars(f[|f| - 1], |last| - 1);
    JoinTrimmed(cs);
  }

  /** Pieces that start and end with no whitespace, joined by spaces and then a space, trim to their join. */
  lemma JoinTrimmed(cs: seq<string>)
    requires |cs| >= 1 && forall k :: 0 <= k < |cs| ==> |cs[k]| > 0
    requires !White(cs[0][0]) && !White(cs[|cs| - 1][|cs[|cs| - 1]| - 1])
    ensures Trim(JoinWith(cs, ' ') + " ") == JoinWith(cs, ' ')
  {
    var j := JoinWith(cs, ' ');
    JoinEnds(cs, ' ');
    TrimSpace(j);
    TrimExact(j);
  }

  /** The ends of a join are the ends of its first and last pieces. */
  lemma {:induction false} JoinEnds(ws: seq<string>, sep: char)
    requires |ws| >= 1 && forall k :: 0 <= k < |ws| ==> |ws[k]| > 0
    ensures |JoinWith(ws, sep)| > 0 && JoinWith(ws, sep)[0] == ws[0][0]
    ensures JoinWith(ws, sep)[|JoinWith(ws, sep)| - 1] == ws[|ws| - 1][|ws[|ws| - 1]| - 1]
  {
    if |ws| > 1 {
      if |ws| > 2 {
        JoinEnds(ws[1..], sep);
      } else {
        assert JoinWith(ws[1..], sep) == ws[1];
      }
    }
  }

  /** The codes of the characters of a message are never empty. */
  lemma CodesNonEmpty(f: string)
    requires Lettered(f)
    ensures forall k :: 0 <= k < |f| ==> |Codes(f)[k]| > 0
  {
    forall k | 0 <= k < |f| ensures |Codes(f)[k]| > 0 {
      CodeOfShape(f[k]);
    }
  }

  /* ------------------------------------------------------------------ */
  /*                              round trip                            */
  /* ------------------------------------------------------------------ */

  /** A word without spaces: all its codes are dots and dashes. */
  predicate Word(w: string) {
    Lettered(w) && ' ' !in w
  }

  /** Words, each of them. */
  predicate Words(ws: seq<string>) {
    forall k :: 0 <= k < |ws| ==> Lettered(ws[k]) && ' ' !in ws[k]
  }

  /** The spelling of each word. */
  function Spellings(ws: seq<string>): (r: seq<string>)
    requires Words(ws)
    ensures |r| == |ws|
  {
    seq(|ws|, k requires 0 <= k < |ws| => Spelled(ws[k]))
  }

  /** The pieces a spelled message splits into at its slashes: the first spelling, then a space and each next one. */
  function Pieces(sp: seq<string>): (r: seq<string>)
    requires |sp| >= 1
    ensures |r| == |sp| && r[0] == sp[0]
    ensures forall k :: 1 <= k < |sp| ==> r[k] == [' '] + sp[k]
  {
    [sp[0]] + seq(|sp| - 1, i requires 0 <= i < |sp| - 1 => [' '] + sp[i + 1])
  }

  /** Decoding the codes of a word's letters gives the word. */
  lemma {:induction false} DecodedCodes(w: string)
    requires Lettered(w)
    ensures Decoded(Codes(w)) == w
  {
    if w != [] {
      CodeOfShape(w[0]);
      assert Codes(w)[1..] == Codes(w[1..]);
      DecodedCodes(w[1..]);
    }
  }

  /** A spelled word decodes back to the word. */
  lemma DecodedSpelled(w: string)
    requires Word(w)
    ensures DecodedWord(Spelled(w)) == w
  {
    if w == [] {
      EmptyNoCode();
      assert Trim(Replaced([])) == [];
    } else {
      SpelledJoin(w);
      var cs := Codes(w);
      var j := JoinWith(cs, ' ');
      CodesNonEmpty(w);
      forall k, i | 0 <= k < |cs| && 0 <= i < |cs[k]| ensures cs[k][i] != ' ' && cs[k][i] != '_' && !White(cs[k][i]) {
        CodeChars(w[k], i);
      }
      JoinChars(cs, ' ');
      assert Replaced(j) == j;
      ReplacedSpace(j);
      JoinEnds(cs, ' ');
      TrimSpace(j);
      TrimExact(j);
      SplitJoin(cs, ' ');
      DecodedCodes(w);
    }
  }

  /** A join holds the separator and the pieces' characters only. */
  lemma {:induction false} JoinChars(ws: seq<string>, sep: char)
    ensures forall i :: 0 <= i < |JoinWith(ws, sep)| ==>
      JoinWith(ws, sep)[i] == sep || exists k, m :: 0 <= k < |ws| && 0 <= m < |ws[k]| && ws[k][m] == JoinWith(ws, sep)[i]
  {
    if |ws| > 1 {
      JoinChars(ws[1..], sep);
      var j, r := JoinWith(ws, sep), JoinWith(ws[1..], sep);
      forall i | 0 <= i < |j|
        ensures j[i] == sep || exists k, m :: 0 <= k < |ws| && 0 <= m < |ws[k]| && ws[k][m] == j[i]
      {
        if i < |ws[0]| {
          assert ws[0][i] == j[i];
        } else if i > |ws[0]| {
          assert j[i] == r[i - |ws[0]| - 1];
          if r[i - |ws[0]| - 1] != sep {
            var k, m :| 0 <= k < |ws[1..]| && 0 <= m < |ws[1..][k]| && ws[1..][k][m] == r[i - |ws[0]| - 1];
            assert ws[k + 1][m] == j[i];
          }
        }
      }
    } else if |ws| == 1 {
      assert forall i :: 0 <= i < |ws[0]| ==> ws[0][i] == JoinWith(ws, sep)[i];
    }
  }

  /** The slashes of a spelled message fall exactly between its spelled words. */
  lemma {:induction false} SplitSpelled(ws: seq<string>)
    requires |ws| >= 1 && Words(ws)
    ensures Lettered(JoinWith(ws, ' '))
    ensures Split(Spelled(JoinWith(ws, ' ')), '/') == Pieces(Spellings(ws))
  {
    assert Word(ws[0]);
    SpelledNoSlash(ws[0]);
    SplitWhole(Spelled(ws[0]), '/');
    if |ws| > 1 {
      var rest := JoinWith(ws[1..], ' ');
      assert Words(ws[1..]) by {
        forall k | 0 <= k < |ws[1..]| ensures Lettered(ws[1..][k]) && ' ' !in ws[1..][k] {
          assert ws[1..][k] == ws[k + 1];
        }
      }
      SplitSpelled(ws[1..]);
      SpelledWordSpace(ws[0], rest);
      var t := Spelled(rest);
      SplitAround(Spelled(ws[0]), [' '] + t, '/');
      SplitCons(' ', t, '/');
      assert Spellings(ws[1..]) == Spellings(ws)[1..];
      PiecesCons(Spellings(ws));
    }
  }

  /** A word, a space and the rest are spelled the word's codes, "/ " and the rest's codes. */
  lemma SpelledWordSpace(w: string, rest: string)
    requires Word(w) && Lettered(rest)
    ensures Lettered(w + " " + rest)
    ensures Spelled(w + " " + rest) == Spelled(w) + ['/'] + ([' '] + Spelled(rest))
  {
    LetteredJoin(w, rest);
    assert w + " " + rest == w + (" " + rest);
    SpelledAppend(w, " " + rest);
    SpelledSpace(rest);
  }

  /** The pieces of more than one spelling: the first, then a space in front of the first of the rest's. */
  lemma PiecesCons(sp: seq<string>)
    requires |sp| >= 2
    ensures Pieces(sp) == [sp[0]] + ([[' '] + Pieces(sp[1..])[0]] + Pieces(sp[1..])[1..])
  {
    var ps, qs := Pieces(sp), Pieces(sp[1..]);
    var rs := [sp[0]] + ([[' '] + qs[0]] + qs[1..]);
    forall k | 0 <= k < |ps| ensures ps[k] == rs[k] {
      if k >= 2 {
        assert rs[k] == qs[k - 1];
      }
    }
  }

  lemma LetteredJoin(w: string, rest: string)
    requires Lettered(w) && Lettered(rest)
    ensures Lettered(w + " " + rest) && Lettered(" " + rest)
  {
    assert FindLetter(' ', 0).Some?;
    forall i | 0 <= i < |w + " " + rest| ensures FindLetter((w + " " + rest)[i], 0).Some? {
      if i > |w| {
        assert (w + " " + rest)[i] == rest[i - |w| - 1];
      }
    }
  }

  /** Spelling distributes over concatenation. */
  lemma {:induction false} SpelledAppend(x: string, y: string)
    requires Lettered(x) && Lettered(y)
    ensures Lettered(x + y) && Spelled(x + y) == Spelled(x) + Spelled(y)
  {
    assert forall i :: 0 <= i < |x + y| ==> (x + y)[i] == if i < |x| then x[i] else y[i - |x|];
    if x != [] {
      assert (x + y)[0] == x[0] && (x + y)[1..] == x[1..] + y;
      SpelledAppend(x[1..], y);
      assert Spelled(x + y) == CodeOf(x[0]) + " " + (Spelled(x[1..]) + Spelled(y));
    } else {
      assert x + y == y;
    }
  }

  /** A space is spelled "/ ". */
  lemma SpelledSpace(rest: string)
    requires Lettered(rest) && Lettered(" " + rest)
    ensures Spelled(" " + rest) == "/ " + Spelled(rest)
  {
    assert (" " + rest)[1..] == rest;
    CodeOfShape(' ');
  }

  /** A spelled word holds no slash. */
  lemma SpelledNoSlash(w: string)
    requires Word(w)
    ensures forall i :: 0 <= i < |Spelled(w)| ==> Spelled(w)[i] != '/'
  {
    if w != [] {
      SpelledJoin(w);
      var cs := Codes(w);
      JoinChars(cs, ' ');
      forall k, m | 0 <= k < |cs| && 0 <= m < |cs[k]| ensures cs[k][m] != '/' {
        CodeChars(w[k], m);
      }
    }
  }

  /** Each word followed by a space is the words joined by spaces, then a space. */
  lemma {:induction false} SpacedJoin(ws: seq<string>)
    requires |ws| >= 1
    ensures Spaced(ws) == JoinWith(ws, ' ') + " "
  {
    if |ws| > 1 {
      SpacedJoin(ws[1..]);
    } else {
      assert Spaced(ws[1..]) == [];
    }
  }

  /** The words of a message of `LETTERS` are words. */
  lemma WordsOf(f: string)
    requires Lettered(f)
    ensures Words(Split(f, ' '))
  {
    JoinSplit(f, ' ');
    forall k, i | 0 <= k < |Split(f, ' ')| && 0 <= i < |Split(f, ' ')[k]|
      ensures FindLetter(Split(f, ' ')[k][i], 0).Some?
    {
      var c := Split(f, ' ')[k][i];
      assert c in f;
    }
  }

  /** Decrypting the spelled words' pieces gives the words. */
  lemma DecodedPieces(ws: seq<string>)
    requires |ws| >= 1 && Words(ws)
    ensures DecodedWords(Pieces(Spellings(ws))) == ws
  {
    var ps := Pieces(Spellings(ws));
    forall k | 0 <= k < |ws| ensures DecodedWords(ps)[k] == ws[k] {
      assert Word(ws[k]);
      DecodedSpelled(ws[k]);
      if k > 0 {
        DecodedWordSpace(Spelled(ws[k]));
      }
    }
  }

  /** Decoding the pieces of a spelled message at its slashes gives its words. */
  lemma DecodedSplit(f: string)
    requires Lettered(f)
    ensures DecodedWords(Split(Spelled(f), '/')) == Split(f, ' ')
  {
    var ws := Split(f, ' ');
    JoinSplit(f, ' ');
    WordsOf(f);
    SplitSpelled(ws);
    DecodedPieces(ws);
  }

  /** A space at the end of the last piece does not change the decoded words. */
  lemma DecodedTrailing(j: string)
    ensures DecodedWords(Split(j + " ", '/')) == DecodedWords(Split(j, '/'))
  {
    SplitSnoc(j, ' ', '/');
    var ps, qs := Split(j, '/'), Split(j + " ", '/');
    forall k | 0 <= k < |ps| ensures DecodedWords(ps)[k] == DecodedWords(qs)[k] {
      if k == |ps| - 1 {
        DecodedWordSpace(ps[k]);
      }
    }
  }

  /**
   * Decrypting an encryption gives the lowercased message's characters of
   * `LETTERS`, trimmed: every letter and digit and the spaces between them.
   */
  lemma RoundTrip(msg: string)
    ensures Decrypted(Encrypted(msg)) == Trim(Kept(Lowered(msg)))
  {
    var f := Kept(Lowered(msg));
    EncryptedJoin(msg);
    if f == [] {
      assert Split([], '/') == [[]];
      EmptyNoCode();
      assert DecodedWord([]) == [];
      assert Trim(" ") == [];
    } else {
      var j := Encrypted(msg);
      SpelledJoin(f);
      assert Spelled(f) == j + " ";
      DecodedSplit(f);
      DecodedTrailing(j);
      JoinSplit(f, ' ');
      SpacedJoin(Split(f, ' '));
      TrimSpace(f);
    }
  }

  /* ------------------------------------------------------------------ */
  /*                            the worked example                      */
  /* ------------------------------------------------------------------ */

  /** A string of `LETTERS` is kept whole. */
  lemma {:induction false} KeptAll(s: string)
    requires Lettered(s)
    ensures Kept(s) == s
  {
    if s != [] {
      KeptAll(s[1..]);
      assert [s[0]] + s[1..] == s;
    }
  }

  /** A character with an entry in `LETTERS` is found there, and its code is that entry's. */
  lemma CodeOfSlot(c: char)
    requires Slot(c).Some?
    ensures FindLetter(c, 0).Some? && LowerChar(c) == c && CodeOf(c) == Code(Slot(c).value)
  {
    FindLetterSlot(c, 0);
  }

  /** "morse code" is lowercase and all of it in `LETTERS`; each character's code is its entry's. */
  lemma ExampleLettered(msg: string)
    requires msg == "morse code"
    ensures Lettered(msg) && Kept(Lowered(msg)) == msg
    ensures forall i :: 0 <= i < |msg| ==> Slot(msg[i]).Some? && CodeOf(msg[i]) == Code(Slot(msg[i]).value)
  {
    forall i | 0 <= i < |msg| ensures FindLetter(msg[i], 0).Some? && LowerChar(msg[i]) == msg[i] && CodeOf(msg[i]) == Code(Slot(msg[i]).value) {
      assert Slot(msg[i]).Some?;
      CodeOfSlot(msg[i]);
    }
    assert Lowered(msg) == msg;
    KeptAll(msg);
  }

  /** The codes of the characters of "morse code". */
  lemma ExampleCodes(msg: string)
    requires msg == "morse code"
    ensures Lettered(msg) && Kept(Lowered(msg)) == msg
    ensures Codes(msg) == ["--", "---", ".-.", "...", ".", "/", "-.-.", "---", "-..", "."]
  {
    ExampleLettered(msg);
    var cs := Codes(msg);
    ExampleFirstCodes(msg);
    ExampleLastCodes(msg);
    assert cs == cs[..5] + cs[5..];
  }

  lemma ExampleFirstCodes(msg: string)
    requires msg == "morse code"
    ensures Lettered(msg) && Codes(msg)[..5] == ["--", "---", ".-.", "...", "."]
  {
    ExampleLettered(msg);
  }

  lemma ExampleLastCodes(msg: string)
    requires msg == "morse code"
    ensures Lettered(msg) && Codes(msg)[5..] == ["/", "-.-.", "---", "-..", "."]
  {
    ExampleLettered(msg);
  }

  /** Joining two nonempty lists of pieces puts the separator between their joins. */
  lemma {:induction false} JoinAppend(xs: seq<string>, ys: seq<string>, sep: char)
    requires |xs| >= 1 && |ys| >= 1
    ensures JoinWith(xs + ys, sep) == JoinWith(xs, sep) + [sep] + JoinWith(ys, sep)
  {
    assert (xs + ys)[0] == xs[0];
    if |xs| > 1 {
      assert (xs + ys)[1..] == xs[1..] + ys;
      JoinAppend(xs[1..], ys, sep);
    } else {
      assert (xs + ys)[1..] == ys;
    }
  }

  /** The codes of "morse", joined. */
  lemma ExampleHead(cs: seq<string>)
    requires cs == ["--", "---", ".-.", "...", "."]
    ensures JoinWith(cs, ' ') == "-- --- .-. ... ."
  {
    assert JoinWith(cs[4..], ' ') == ".";
    assert JoinWith(cs[3..], ' ') == "... .";
    assert JoinWith(cs[2..], ' ') == ".-. ... .";
    assert JoinWith(cs[1..], ' ') == "--- .-. ... .";
  }

  /** The codes of " code", joined. */
  lemma ExampleTail(cs: seq<string>)
    requires cs == ["/", "-.-.", "---", "-..", "."]
    ensures JoinWith(cs, ' ') == "/ -.-. --- -.. ."
  {
    assert JoinWith(cs[4..], ' ') == ".";
    assert JoinWith(cs[3..], ' ') == "-.. .";
    assert JoinWith(cs[2..], ' ') == "--- -.. .";
    assert JoinWith(cs[1..], ' ') == "-.-. --- -.. .";
  }

  /** The example's codes, joined by single spaces. */
  lemma ExampleJoined(cs: seq<string>)
    requires cs == ["--", "---", ".-.", "...", ".", "/", "-.-.", "---", "-..", "."]
    ensures JoinWith(cs, ' ') == "-- --- .-. ... . / -.-. --- -.. ."
  {
    assert cs == cs[..5] + cs[5..];
    JoinAppend(cs[..5], cs[5..], ' ');
    ExampleHead(cs[..5]);
    ExampleTail(cs[5..]);
  }

  /** "morse code" encrypts to "-- --- .-. ... . / -.-. --- -.. .", which decrypts back to it. */
  lemma Example(msg: string)
    requires msg == "morse code"
    ensures Encrypted(msg) == "-- --- .-. ... . / -.-. --- -.. ."
    ensures Decrypted("-- --- .-. ... . / -.-. --- -.. .") == msg
  {
    ExampleCodes(msg);
    EncryptedJoin(msg);
    ExampleJoined(Codes(msg));
    RoundTrip(msg);
    TrimExact(msg);
  }
}
