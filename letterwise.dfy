/**
 * The shape every letter cipher of the library shares: walk the message,
 * give the `n`-th letter a new code point in its own case, and copy every
 * other character; the letter counter advances only on letters.
 */
module Letterwise {
  import opened Permutations
  import opened Arith
  import opened LangAlphabets
  import opened Languages

  /** Both cases have a letter for every code point. */
  predicate Cased(a: LangAlphabet) {
    |a.upper| == |a.lower|
  }

  /**
   * `msg` with its `n`-th letter replaced by the letter of code point
   * `cps[n]` in the case of the original letter.
   */
  function Relettered(a: LangAlphabet, msg: string, cps: seq<int>): (r: string)
    requires Cased(a) && |cps| == LetterCount(a, msg) && InRange(cps, CpCount(a))
    ensures |r| == |msg|
  {
    if msg == [] then []
    else
      var c := msg[|msg| - 1];
      if IsLetter(a, c) then Relettered(a, msg[..|msg| - 1], cps[..|cps| - 1]) + [UpdateCp(a, c, cps[|cps| - 1])]
      else Relettered(a, msg[..|msg| - 1], cps) + [c]
  }

  /** A 26-letter alphabet, so that every code point is a row of a Vigenère tableau. */
  predicate TableauAlphabet(a: LangAlphabet) {
    WF(a) && CpCount(a) == 26
  }

  /** The keyword slot of letter `n`: `n mod len`, counted down in whole rounds of `len`. */
  function Slot(n: nat, len: int): (r: nat)
    requires 0 < len
    ensures r < len
    decreases n
  {
    if n < len then n else Slot(n - len, len)
  }

  /** The slot is the remainder of `n` by `len`, the index `count % self.keyword.len()` of the walks. */
  lemma {:induction false} SlotMod(n: nat, len: int)
    requires 0 < len
    ensures Slot(n, len) == n % len
    decreases n
  {
    if n >= len {
      SlotMod(n - len, len);
      ModAddMultiple(n - len, 1, len);
    }
  }

  /** A keyword a tableau can use: at least one letter, each a code point below 26. */
  predicate KeyUsable(key: seq<int>) {
    |key| > 0 && InRange(key, 26)
  }

  /** Every letter of `msg` is the alphabet's own letter for its code point, not an alias. */
  predicate PlainLetters(a: LangAlphabet, msg: string)
    requires Cased(a)
  {
    forall i :: 0 <= i < |msg| && IsLetter(a, msg[i]) ==> ValidCp(a, GetCp(a, msg[i])) && UpdateCp(a, msg[i], GetCp(a, msg[i])) == msg[i]
  }

  lemma {:induction false} LetterCountAppend(a: LangAlphabet, s: string, t: string)
    ensures LetterCount(a, s + t) == LetterCount(a, s) + LetterCount(a, t)
  {
    if t != [] {
      assert (s + t)[..|s + t| - 1] == s + t[..|t| - 1];
      LetterCountAppend(a, s, t[..|t| - 1]);
    } else {
      assert s + t == s;
    }
  }

  /** One step of a walk over `msg`: how the letter count and code points grow at position `i`. */
  lemma PrefixStep(a: LangAlphabet, msg: string, i: int)
    requires WF(a) && 0 <= i < |msg|
    ensures msg[..i + 1][..i] == msg[..i]
    ensures LetterCount(a, msg[..i + 1]) == LetterCount(a, msg[..i]) + (if IsLetter(a, msg[i]) then 1 else 0)
    ensures LetterCount(a, msg[..i + 1]) <= LetterCount(a, msg) == |StringToVec(a, msg)|
    ensures IsLetter(a, msg[i]) ==> StringToVec(a, msg)[LetterCount(a, msg[..i])] == GetCp(a, msg[i])
  {
    assert msg[..i + 1][..i] == msg[..i];
    assert msg == msg[..i + 1] + msg[i + 1..];
    LetterCountAppend(a, msg[..i + 1], msg[i + 1..]);
    StringToVecAppend(a, msg[..i + 1], msg[i + 1..]);
    StringToVecProps(a, msg);
    StringToVecProps(a, msg[..i + 1]);
    StringToVecProps(a, msg[..i]);
  }

  /** A letter at position `i` is one of the message's letters, so the letters before it are fewer than all. */
  lemma LetterAt(a: LangAlphabet, msg: string, i: int)
    requires WF(a) && 0 <= i < |msg| && IsLetter(a, msg[i])
    ensures LetterCount(a, msg[..i]) < LetterCount(a, msg)
  {
    PrefixStep(a, msg, i);
  }

  /**
   * One step of building `Relettered` along `msg`: appending the image `x`
   * of character `i` (its letter for the next code point, or itself) gives
   * the relettered prefix one longer.
   */
  lemma ReletteredSnoc(a: LangAlphabet, msg: string, cps: seq<int>, i: int, count: int, result: string, x: char)
    requires WF(a) && 0 <= i < |msg|
    requires |cps| == LetterCount(a, msg) && InRange(cps, CpCount(a))
    requires count == LetterCount(a, msg[..i]) <= |cps| && result == Relettered(a, msg[..i], cps[..count])
    requires IsLetter(a, msg[i]) ==> count < |cps| && x == UpdateCp(a, msg[i], cps[count])
    requires !IsLetter(a, msg[i]) ==> x == msg[i]
    ensures count + (if IsLetter(a, msg[i]) then 1 else 0) == LetterCount(a, msg[..i + 1]) <= |cps|
    ensures result + [x] == Relettered(a, msg[..i + 1], cps[..count + (if IsLetter(a, msg[i]) then 1 else 0)])
  {
    PrefixStep(a, msg, i);
    if IsLetter(a, msg[i]) {
      assert cps[..count + 1][..count] == cps[..count];
    }
  }

  /**
   * The state of a walk that rebuilds `Relettered(a, msg, cps)` after the
   * first `i` characters: `count` letters seen, `result` the rebuilt prefix.
   */
  ghost predicate Rebuilt(a: LangAlphabet, msg: string, cps: seq<int>, i: int, count: int, result: string)
    requires WF(a) && |cps| == LetterCount(a, msg) && InRange(cps, CpCount(a))
  {
    0 <= i <= |msg| && count == LetterCount(a, msg[..i]) <= |cps| && result == Relettered(a, msg[..i], cps[..count])
  }

  /** The walk starts with nothing seen and nothing written. */
  lemma RebuiltStart(a: LangAlphabet, msg: string, cps: seq<int>)
    requires WF(a) && |cps| == LetterCount(a, msg) && InRange(cps, CpCount(a))
    ensures Rebuilt(a, msg, cps, 0, 0, [])
  {
    assert msg[..0] == [];
  }

  /** A letter at position `i` has a code point still to come, so the message has letters. */
  lemma RebuiltAhead(a: LangAlphabet, msg: string, cps: seq<int>, i: int, count: int, result: string)
    requires WF(a) && |cps| == LetterCount(a, msg) && InRange(cps, CpCount(a))
    requires 0 <= i < |msg| && IsLetter(a, msg[i]) && Rebuilt(a, msg, cps, i, count, result)
    ensures count < LetterCount(a, msg)
  {
    LetterAt(a, msg, i);
  }

  /**
   * A letter at position `i` has a code point still to come: the `count`-th
   * one of `cps`, and the `count`-th of the message's own code points is its own.
   */
  lemma RebuiltLetter(a: LangAlphabet, msg: string, cps: seq<int>, i: int, count: int, result: string)
    requires WF(a) && |cps| == LetterCount(a, msg) && InRange(cps, CpCount(a))
    requires 0 <= i < |msg| && IsLetter(a, msg[i]) && Rebuilt(a, msg, cps, i, count, result)
    ensures count < |cps| == |StringToVec(a, msg)| && StringToVec(a, msg)[count] == GetCp(a, msg[i])
  {
    PrefixStep(a, msg, i);
  }

  /** Writing the image `x` of character `i` moves the walk on by one character. */
  lemma RebuiltSnoc(a: LangAlphabet, msg: string, cps: seq<int>, i: int, count: int, result: string, x: char)
    requires WF(a) && |cps| == LetterCount(a, msg) && InRange(cps, CpCount(a))
    requires 0 <= i < |msg| && Rebuilt(a, msg, cps, i, count, result)
    requires IsLetter(a, msg[i]) ==> count < |cps| && x == UpdateCp(a, msg[i], cps[count])
    requires !IsLetter(a, msg[i]) ==> x == msg[i]
    ensures Rebuilt(a, msg, cps, i + 1, count + (if IsLetter(a, msg[i]) then 1 else 0), result + [x])
  {
    ReletteredSnoc(a, msg, cps, i, count, result, x);
  }

  /** The walk over the whole message has rebuilt `Relettered`, the message itself when it has no letters. */
  lemma RebuiltDone(a: LangAlphabet, msg: string, cps: seq<int>, count: int, result: string)
    requires WF(a) && |cps| == LetterCount(a, msg) && InRange(cps, CpCount(a))
    requires Rebuilt(a, msg, cps, |msg|, count, result)
    ensures result == Relettered(a, msg, cps)
    ensures LetterCount(a, msg) == 0 ==> result == msg
  {
    assert msg[..|msg|] == msg;
    assert cps[..count] == cps;
    if LetterCount(a, msg) == 0 {
      ReletteredNoLetters(a, msg);
    }
  }

  /**
   * What `Relettered` keeps and changes: non-letters stay where they are,
   * and the letter at position `i` becomes the letter of the code point
   * numbered by the letters before it.
   */
  lemma ReletteredAt(a: LangAlphabet, msg: string, cps: seq<int>)
    requires Cased(a) && |cps| == LetterCount(a, msg) && InRange(cps, CpCount(a))
    ensures forall i :: 0 <= i < |msg| && !IsLetter(a, msg[i]) ==> Relettered(a, msg, cps)[i] == msg[i]
    ensures forall i :: 0 <= i < |msg| && IsLetter(a, msg[i]) ==>
      LetterCount(a, msg[..i]) < |cps| && Relettered(a, msg, cps)[i] == UpdateCp(a, msg[i], cps[LetterCount(a, msg[..i])])
  {
    forall i | 0 <= i < |msg|
      ensures !IsLetter(a, msg[i]) ==> Relettered(a, msg, cps)[i] == msg[i]
      ensures IsLetter(a, msg[i]) ==>
        LetterCount(a, msg[..i]) < |cps| && Relettered(a, msg, cps)[i] == UpdateCp(a, msg[i], cps[LetterCount(a, msg[..i])])
    {
      ReletteredIndex(a, msg, cps, i);
    }
  }

  /** `ReletteredAt` at one position, by induction on the message with the position fixed. */
  lemma {:induction false} ReletteredIndex(a: LangAlphabet, msg: string, cps: seq<int>, i: int)
    requires Cased(a) && |cps| == LetterCount(a, msg) && InRange(cps, CpCount(a)) && 0 <= i < |msg|
    ensures !IsLetter(a, msg[i]) ==> Relettered(a, msg, cps)[i] == msg[i]
    ensures IsLetter(a, msg[i]) ==>
      LetterCount(a, msg[..i]) < |cps| && Relettered(a, msg, cps)[i] == UpdateCp(a, msg[i], cps[LetterCount(a, msg[..i])])
  {
    var n := |msg| - 1;
    var p := msg[..n];
    assert msg[..n] == p;
    if i < n {
      var cps' := if IsLetter(a, msg[n]) then cps[..|cps| - 1] else cps;
      ReletteredIndex(a, p, cps', i);
      assert msg[..i] == p[..i];
    }
  }

  /** A message without letters has no letter to replace, so it comes back as it is. */
  lemma ReletteredNoLetters(a: LangAlphabet, msg: string)
    requires Cased(a) && LetterCount(a, msg) == 0
    ensures Relettered(a, msg, []) == msg
  {
    ReletteredAt(a, msg, []);
  }

  /**
   * With a well-formed alphabet the letters of the result are letters of
   * the same case as the originals, carrying the code points `cps`.
   */
  lemma ReletteredLetters(a: LangAlphabet, msg: string, cps: seq<int>)
    requires WF(a) && |cps| == LetterCount(a, msg) && InRange(cps, CpCount(a))
    ensures forall i :: 0 <= i < |msg| ==> (IsLetter(a, Relettered(a, msg, cps)[i]) <==> IsLetter(a, msg[i]))
    ensures forall i :: 0 <= i < |msg| && IsLetter(a, msg[i]) ==>
      (IsUpper(a, Relettered(a, msg, cps)[i]) <==> IsUpper(a, msg[i]))
      && LetterCount(a, msg[..i]) < |cps| && GetCp(a, Relettered(a, msg, cps)[i]) == cps[LetterCount(a, msg[..i])]
  {
    ReletteredAt(a, msg, cps);
    forall i | 0 <= i < |msg| && IsLetter(a, msg[i])
      ensures IsLetter(a, Relettered(a, msg, cps)[i])
      ensures IsUpper(a, Relettered(a, msg, cps)[i]) <==> IsUpper(a, msg[i])
      ensures LetterCount(a, msg[..i]) < |cps| && GetCp(a, Relettered(a, msg, cps)[i]) == cps[LetterCount(a, msg[..i])]
    {
      UpdateCpProps(a, msg[i], cps[LetterCount(a, msg[..i])]);
    }
  }

  /** Every code point `string_to_vec` yields is read from some letter of the message. */
  lemma {:induction false} LetterOfCode(a: LangAlphabet, msg: string, k: int) returns (i: int)
    requires 0 <= k < |StringToVec(a, msg)|
    ensures 0 <= i < |msg| && IsLetter(a, msg[i]) && StringToVec(a, msg)[k] == GetCp(a, msg[i])
  {
    var n := |msg| - 1;
    var p := msg[..n];
    if k < |StringToVec(a, p)| {
      i := LetterOfCode(a, p, k);
      assert msg[i] == p[i];
    } else {
      i := n;
    }
  }

  /**
   * A cipher that gives each letter the image under `f` of its own code
   * point keeps every non-letter, keeps each letter's case, and leaves
   * `f(cp)` where the message had `cp`.
   */
  lemma ReletteredPointwise(a: LangAlphabet, msg: string, cps: seq<int>, f: int -> int)
    requires WF(a) && |cps| == LetterCount(a, msg) == |StringToVec(a, msg)| && InRange(cps, CpCount(a))
    requires forall k :: 0 <= k < |cps| ==> cps[k] == f(StringToVec(a, msg)[k])
    ensures forall i :: 0 <= i < |msg| && !IsLetter(a, msg[i]) ==> Relettered(a, msg, cps)[i] == msg[i]
    ensures forall i :: 0 <= i < |msg| && IsLetter(a, msg[i]) ==>
      IsLetter(a, Relettered(a, msg, cps)[i]) && (IsUpper(a, Relettered(a, msg, cps)[i]) <==> IsUpper(a, msg[i]))
      && GetCp(a, Relettered(a, msg, cps)[i]) == f(GetCp(a, msg[i]))
  {
    ReletteredAt(a, msg, cps);
    ReletteredLetters(a, msg, cps);
    forall i | 0 <= i < |msg| && IsLetter(a, msg[i])
      ensures GetCp(a, Relettered(a, msg, cps)[i]) == f(GetCp(a, msg[i]))
    {
      PrefixStep(a, msg, i);
    }
  }

  /**
   * What relettering needs of an alphabet: giving a letter a code point
   * yields a letter of that code point and of the same case.
   */
  predicate Updatable(a: LangAlphabet) {
    Cased(a) &&
    forall c, cp :: IsLetter(a, c) && 0 <= cp < CpCount(a) ==>
      IsLetter(a, UpdateCp(a, c, cp)) && GetCp(a, UpdateCp(a, c, cp)) == cp && (IsUpper(a, UpdateCp(a, c, cp)) <==> IsUpper(a, c))
  }

  lemma WFUpdatable(a: LangAlphabet)
    requires WF(a)
    ensures Updatable(a)
  {
    forall c, cp | IsLetter(a, c) && 0 <= cp < CpCount(a)
      ensures IsLetter(a, UpdateCp(a, c, cp)) && GetCp(a, UpdateCp(a, c, cp)) == cp && (IsUpper(a, UpdateCp(a, c, cp)) <==> IsUpper(a, c))
    {
      UpdateCpProps(a, c, cp);
    }
  }

  lemma {:induction false} UpdatableVec(a: LangAlphabet, msg: string, cps: seq<int>)
    requires Updatable(a) && |cps| == LetterCount(a, msg) && InRange(cps, CpCount(a))
    ensures LetterCount(a, Relettered(a, msg, cps)) == LetterCount(a, msg)
    ensures StringToVec(a, Relettered(a, msg, cps)) == cps
  {
    if msg != [] {
      var n := |msg| - 1;
      var c := msg[n];
      var r := Relettered(a, msg, cps);
      if IsLetter(a, c) {
        var k := |cps| - 1;
        var rest := Relettered(a, msg[..n], cps[..k]);
        var u := UpdateCp(a, c, cps[k]);
        assert r == rest + [u];
        assert IsLetter(a, u) && GetCp(a, u) == cps[k];
        UpdatableVec(a, msg[..n], cps[..k]);
        CharAppended(a, rest, u);
        assert cps == cps[..k] + [cps[k]];
      } else {
        var rest := Relettered(a, msg[..n], cps);
        assert r == rest + [c];
        UpdatableVec(a, msg[..n], cps);
        CharAppended(a, rest, c);
      }
    }
  }

  /** Appending one character adds one letter and its code point when it is a letter, nothing otherwise. */
  lemma CharAppended(a: LangAlphabet, s: string, x: char)
    ensures LetterCount(a, s + [x]) == LetterCount(a, s) + (if IsLetter(a, x) then 1 else 0)
    ensures StringToVec(a, s + [x]) == StringToVec(a, s) + (if IsLetter(a, x) then [GetCp(a, x)] else [])
  {
    assert (s + [x])[..|s|] == s;
  }

  /** Reading back the code points of the result gives `cps`. */
  lemma ReletteredVec(a: LangAlphabet, msg: string, cps: seq<int>)
    requires WF(a) && |cps| == LetterCount(a, msg) && InRange(cps, CpCount(a))
    ensures LetterCount(a, Relettered(a, msg, cps)) == LetterCount(a, msg)
    ensures StringToVec(a, Relettered(a, msg, cps)) == cps
  {
    WFUpdatable(a);
    UpdatableVec(a, msg, cps);
  }

  lemma {:induction false} UpdatableTwice(a: LangAlphabet, msg: string, c1: seq<int>, c2: seq<int>)
    requires Updatable(a) && |c1| == |c2| == LetterCount(a, msg) && InRange(c1, CpCount(a)) && InRange(c2, CpCount(a))
    ensures LetterCount(a, Relettered(a, msg, c1)) == LetterCount(a, msg)
    ensures Relettered(a, Relettered(a, msg, c1), c2) == Relettered(a, msg, c2)
  {
    UpdatableVec(a, msg, c1);
    if msg != [] {
      var n := |msg| - 1;
      var c := msg[n];
      var r := Relettered(a, msg, c1);
      if IsLetter(a, c) {
        var k := |c1| - 1;
        UpdatableTwice(a, msg[..n], c1[..k], c2[..k]);
        assert r[..n] == Relettered(a, msg[..n], c1[..k]);
      } else {
        UpdatableTwice(a, msg[..n], c1, c2);
        assert r[..n] == Relettered(a, msg[..n], c1);
      }
    }
  }

  /** Relettering twice is relettering once with the second code points. */
  lemma ReletteredTwice(a: LangAlphabet, msg: string, c1: seq<int>, c2: seq<int>)
    requires WF(a) && |c1| == |c2| == LetterCount(a, msg) && InRange(c1, CpCount(a)) && InRange(c2, CpCount(a))
    ensures LetterCount(a, Relettered(a, msg, c1)) == LetterCount(a, msg)
    ensures Relettered(a, Relettered(a, msg, c1), c2) == Relettered(a, msg, c2)
  {
    WFUpdatable(a);
    UpdatableTwice(a, msg, c1, c2);
  }

  /**
   * Relettering a message of plain letters with `c` can be undone: the
   * result carries `c`, and relettering it with the message's own code
   * points gives the message back.
   */
  lemma ReletteredUndone(a: LangAlphabet, msg: string, c: seq<int>)
    requires WF(a) && PlainLetters(a, msg) && |c| == LetterCount(a, msg) && InRange(c, CpCount(a))
    ensures LetterCount(a, Relettered(a, msg, c)) == LetterCount(a, msg)
    ensures StringToVec(a, Relettered(a, msg, c)) == c
    ensures |StringToVec(a, msg)| == LetterCount(a, msg) && InRange(StringToVec(a, msg), CpCount(a))
    ensures Relettered(a, Relettered(a, msg, c), StringToVec(a, msg)) == msg
  {
    ReletteredVec(a, msg, c);
    StringToVecProps(a, msg);
    ReletteredTwice(a, msg, c, StringToVec(a, msg));
    ReletteredOwn(a, msg);
  }

  lemma {:induction false} OwnCodes(a: LangAlphabet, msg: string)
    requires Cased(a) && PlainLetters(a, msg)
    requires |StringToVec(a, msg)| == LetterCount(a, msg) && InRange(StringToVec(a, msg), CpCount(a))
    ensures Relettered(a, msg, StringToVec(a, msg)) == msg
  {
    if msg != [] {
      var n := |msg| - 1;
      var p := msg[..n];
      var v := StringToVec(a, msg);
      assert PlainLetters(a, p) by {
        forall i | 0 <= i < |p| ensures p[i] == msg[i] {
        }
      }
      if IsLetter(a, msg[n]) {
        assert v == StringToVec(a, p) + [GetCp(a, msg[n])];
        assert v[..|v| - 1] == StringToVec(a, p);
        OwnCodes(a, p);
        assert UpdateCp(a, msg[n], GetCp(a, msg[n])) == msg[n];
      } else {
        assert v == StringToVec(a, p);
        OwnCodes(a, p);
      }
      assert msg == p + [msg[n]];
    }
  }

  /** A message of plain letters relettered with its own code points is unchanged. */
  lemma ReletteredOwn(a: LangAlphabet, msg: string)
    requires WF(a) && PlainLetters(a, msg)
    ensures |StringToVec(a, msg)| == LetterCount(a, msg) && InRange(StringToVec(a, msg), CpCount(a))
    ensures Relettered(a, msg, StringToVec(a, msg)) == msg
  {
    StringToVecProps(a, msg);
    OwnCodes(a, msg);
  }
}
