/**
 * The code-point helpers of `src/util/mod.rs` (older copies in `src/util.rs`):
 * uniqueness of characters, keyed alphabets, consecutive fills, swap and
 * shuffle, inversion of a substitution and the stable ranking `find_order`.
 */
module Util {
  import opened Arith
  import opened Permutations

  /* ------------------------------------------------------------------ */
  /*                              is_unique                             */
  /* ------------------------------------------------------------------ */

  /** No character of `s` occurs twice (the intended meaning of `is_unique`). */
  predicate IsUnique(s: string) {
    forall i, j :: 0 <= i < j < |s| ==> s[i] != s[j]
  }

  /** Number of bytes of `c` in UTF-8. */
  function Utf8Len(c: char): nat {
    if c as int < 0x80 then 1 else if c as int < 0x800 then 2 else if c as int < 0x10000 then 3 else 4
  }

  /** Byte offset of the `k`-th character, the index `char_indices` yields. */
  function ByteOffset(s: string, k: nat): nat
    requires k <= |s|
  {
    if k == 0 then 0 else ByteOffset(s, k - 1) + Utf8Len(s[k - 1])
  }

  /**
   * `is_unique` as written: for the character at byte offset `idx` it compares
   * against `chars().skip(idx + 1)`, i.e. it skips `idx + 1` *characters*.
   */
  predicate IsUniqueAsWritten(s: string) {
    forall k :: 0 <= k < |s| ==> NoLaterRepeat(s, k)
  }

  /** The comparisons `is_unique` makes for the `k`-th character. */
  predicate NoLaterRepeat(s: string, k: nat)
    requires k < |s|
  {
    forall j :: ByteOffset(s, k) + 1 <= j < |s| ==> s[j] != s[k]
  }

  lemma ByteOffsetAscii(s: string, k: nat)
    requires k <= |s| && forall i :: 0 <= i < |s| ==> s[i] as int < 0x80
    ensures ByteOffset(s, k) == k
  {
  }

  /** On ASCII text the byte and character indices agree, so `is_unique` is right. */
  lemma IsUniqueAsWrittenAscii(s: string)
    requires forall i :: 0 <= i < |s| ==> s[i] as int < 0x80
    ensures IsUniqueAsWritten(s) <==> IsUnique(s)
  {
    forall k | 0 <= k < |s| ensures NoLaterRepeat(s, k) <==> forall j :: k < j < |s| ==> s[j] != s[k] {
      ByteOffsetAscii(s, k);
    }
  }

  /** With a two-byte letter in front, the repeated `a` of `"éaa"` goes unnoticed. */
  lemma IsUniqueAsWrittenMissesRepeat()
    ensures IsUniqueAsWritten("éaa") && !IsUnique("éaa")
  {
    var s := "éaa";
    assert ByteOffset(s, 1) == 2 && ByteOffset(s, 2) == 3;
    assert NoLaterRepeat(s, 0) && NoLaterRepeat(s, 1) && NoLaterRepeat(s, 2);
    assert s[1] == s[2];
  }

  /** The `k`-th character starts at byte `k` or later. */
  lemma {:induction false} ByteOffsetAtLeast(s: string, k: nat)
    requires k <= |s|
    ensures ByteOffset(s, k) >= k
  {
    if k > 0 {
      ByteOffsetAtLeast(s, k - 1);
    }
  }

  /** `is_unique` as written compares fewer pairs, so it accepts every string without repeats. */
  lemma UniqueAsWritten(s: string)
    requires IsUnique(s)
    ensures IsUniqueAsWritten(s)
  {
    forall k | 0 <= k < |s| ensures NoLaterRepeat(s, k) {
      ByteOffsetAtLeast(s, k);
    }
  }

  lemma IsUniqueEmpty()
    ensures IsUnique("")
  {
  }

  /* ------------------------------------------------------------------ */
  /*                           keyed alphabets                          */
  /* ------------------------------------------------------------------ */

  /** The first occurrences of `s`, in order. */
  function Dedup(s: seq<int>): seq<int>
  {
    if s == [] then []
    else
      var p, x := s[..|s| - 1], s[|s| - 1];
      if x in p then Dedup(p) else Dedup(p) + [x]
  }

  /** `Dedup` keeps exactly the values of `s`, each once. */
  lemma {:induction false} DedupProps(s: seq<int>)
    ensures Distinct(Dedup(s))
    ensures forall x :: x in Dedup(s) <==> x in s
    ensures |Dedup(s)| <= |s|
  {
    if s != [] {
      var p, x := s[..|s| - 1], s[|s| - 1];
      assert s == p + [x];
      DedupProps(p);
    }
  }

  /** The values of `lo..hi` that do not occur in `key`, ascending. */
  function Missing(key: seq<int>, lo: int, hi: int): seq<int>
    decreases hi - lo
  {
    if hi <= lo then []
    else
      var r := Missing(key, lo, hi - 1);
      if hi - 1 in key then r else r + [hi - 1]
  }

  /** `Missing` holds exactly the values of `lo..hi` outside `key`, each once. */
  lemma {:induction false} MissingProps(key: seq<int>, lo: int, hi: int)
    ensures Distinct(Missing(key, lo, hi))
    ensures forall x :: x in Missing(key, lo, hi) <==> lo <= x < hi && x !in key
    ensures forall i :: 0 <= i < |Missing(key, lo, hi)| ==> lo <= Missing(key, lo, hi)[i] < hi
    decreases hi - lo
  {
    if hi > lo {
      MissingProps(key, lo, hi - 1);
    }
  }

  lemma DedupInRange(key: seq<int>, n: int)
    requires InRange(key, n)
    ensures InRange(Dedup(key), n)
  {
    var d := Dedup(key);
    DedupProps(key);
    forall i | 0 <= i < |d| ensures 0 <= d[i] < n {
      assert d[i] in key;
    }
  }

  lemma DistinctConcat(a: seq<int>, b: seq<int>)
    requires Distinct(a) && Distinct(b) && forall i, j :: 0 <= i < |a| && 0 <= j < |b| ==> a[i] != b[j]
    ensures Distinct(a + b)
  {
    forall i, j | 0 <= i < j < |a + b|
      ensures (a + b)[i] != (a + b)[j]
    {
      if i < |a| && j >= |a| {
        assert (a + b)[j] == b[j - |a|];
      }
    }
  }

  /** `Missing` splits at any intermediate bound. */
  lemma {:induction false} MissingSplit(key: seq<int>, lo: int, mid: int, hi: int)
    requires lo <= mid <= hi
    ensures Missing(key, lo, hi) == Missing(key, lo, mid) + Missing(key, mid, hi)
    decreases hi - mid
  {
    if hi > mid {
      MissingSplit(key, lo, mid, hi - 1);
    }
  }

  lemma DisjointKeyMissing(key: seq<int>, lo: int, hi: int)
    ensures forall i, j :: 0 <= i < |Dedup(key)| && 0 <= j < |Missing(key, lo, hi)| ==> Dedup(key)[i] != Missing(key, lo, hi)[j]
  {
    DedupProps(key);
    MissingProps(key, lo, hi);
    forall i, j | 0 <= i < |Dedup(key)| && 0 <= j < |Missing(key, lo, hi)|
      ensures Dedup(key)[i] != Missing(key, lo, hi)[j]
    {
      assert Dedup(key)[i] in Dedup(key);
      assert Missing(key, lo, hi)[j] in Missing(key, lo, hi);
    }
  }

  /** The deduplicated key followed by values from outside it is still distinct. */
  lemma KeyThen(key: seq<int>, n: nat, m: seq<int>)
    requires InRange(key, n) && Distinct(m) && InRange(m, n)
    requires forall j :: 0 <= j < |m| ==> m[j] !in key
    ensures Distinct(Dedup(key) + m) && InRange(Dedup(key) + m, n)
    ensures |Dedup(key) + m| <= n
  {
    var d := Dedup(key);
    DedupProps(key);
    DedupInRange(key, n);
    forall i, j | 0 <= i < |d| && 0 <= j < |m| ensures d[i] != m[j] {
      assert d[i] in key;
    }
    DistinctConcat(d, m);
    assert InRange(d + m, n) by {
      forall i | 0 <= i < |d + m| ensures 0 <= (d + m)[i] < n {
        if i >= |d| { assert (d + m)[i] == m[i - |d|]; }
      }
    }
    DistinctBounded(d + m, n);
  }

  /** The missing values of `lo..hi` qualify as the `m` of `KeyThen`. */
  lemma MissingOutside(key: seq<int>, n: nat, lo: int, hi: int)
    requires 0 <= lo <= hi <= n
    ensures Distinct(Missing(key, lo, hi)) && InRange(Missing(key, lo, hi), n)
    ensures forall j :: 0 <= j < |Missing(key, lo, hi)| ==> Missing(key, lo, hi)[j] !in key
  {
    var m := Missing(key, lo, hi);
    MissingProps(key, lo, hi);
    forall j | 0 <= j < |m| ensures m[j] !in key {
      assert m[j] in m;
    }
  }

  /** The missing values of `vs..n` and then of `0..v`, for `v <= vs`, qualify too. */
  lemma WrappedOutside(key: seq<int>, n: nat, vs: int, v: int)
    requires 0 <= v <= vs <= n
    ensures Distinct(Missing(key, vs, n) + Missing(key, 0, v))
    ensures InRange(Missing(key, vs, n) + Missing(key, 0, v), n)
    ensures forall j :: 0 <= j < |Missing(key, vs, n) + Missing(key, 0, v)| ==> (Missing(key, vs, n) + Missing(key, 0, v))[j] !in key
  {
    var a, b := Missing(key, vs, n), Missing(key, 0, v);
    MissingOutside(key, n, vs, n);
    MissingOutside(key, n, 0, v);
    MissingProps(key, vs, n);
    MissingProps(key, 0, v);
    DistinctConcat(a, b);
    forall j | 0 <= j < |a + b| ensures 0 <= (a + b)[j] < n && (a + b)[j] !in key {
      if j >= |a| { assert (a + b)[j] == b[j - |a|]; }
    }
  }

  /** The number of values of `0..n` missing from a key drawn from `0..n`. */
  lemma MissingCount(key: seq<int>, n: nat)
    requires InRange(key, n)
    ensures |Dedup(key)| + |Missing(key, 0, n)| == n
  {
    var d, m := Dedup(key), Missing(key, 0, n);
    DedupProps(key);
    MissingProps(key, 0, n);
    DisjointKeyMissing(key, 0, n);
    DistinctElemsCard(d);
    DistinctElemsCard(m);
    DistinctConcat(d, m);
    DistinctElemsCard(d + m);
    RangeCard(n);
    assert Elems(d + m) == Range(n);
  }

  /**
   * `fill_alphabet_from_start`: the deduplicated key followed by the missing
   * values in ascending order. It is a permutation of `0..n` that starts with the key.
   */
  function KeyedFromStart(key: seq<int>, n: nat): (r: seq<int>)
    requires InRange(key, n)
    ensures |r| == n && IsPermutation(r)
    ensures |Dedup(key)| <= n && r[..|Dedup(key)|] == Dedup(key)
  {
    var r := Dedup(key) + Missing(key, 0, n);
    MissingCount(key, n);
    MissingOutside(key, n, 0, n);
    KeyThen(key, n, Missing(key, 0, n));
    r
  }

  lemma DedupNonEmpty(key: seq<int>)
    requires |key| > 0
    ensures |Dedup(key)| > 0
  {
    DedupProps(key);
    assert key[0] in key;
  }

  /** The last entry of the deduplicated key: where `fill_alphabet_continue` resumes. */
  function LastKeyLetter(key: seq<int>): (r: int)
    requires |key| > 0
    ensures |Dedup(key)| > 0 && Dedup(key)[|Dedup(key)| - 1] == r && r in key
  {
    DedupNonEmpty(key);
    DedupProps(key);
    assert Dedup(key)[|Dedup(key)| - 1] in Dedup(key);
    Dedup(key)[|Dedup(key)| - 1]
  }

  /**
   * `fill_alphabet_continue`: the deduplicated key, then the missing values
   * from its last letter up to `n`, then the missing values below it. It is a
   * permutation of `0..n` that starts with the key.
   */
  function KeyedContinue(key: seq<int>, n: nat): (r: seq<int>)
    requires |key| > 0 && InRange(key, n)
    ensures |r| == n && IsPermutation(r)
    ensures |Dedup(key)| <= n && r[..|Dedup(key)|] == Dedup(key)
  {
    var d, v := Dedup(key), LastKeyLetter(key);
    var tail := Missing(key, v, n) + Missing(key, 0, v);
    assert 0 <= v < n by { assert key[0] in key; }
    MissingSplit(key, 0, v, n);
    MissingCount(key, n);
    WrappedOutside(key, n, v, v);
    KeyThen(key, n, tail);
    assert (d + tail)[..|d|] == d;
    d + tail
  }

  lemma DedupHello()
    ensures Dedup([7, 4, 11, 11, 14]) == [7, 4, 11, 14]
  {
    assert [7][..0] == [];
    assert Dedup([7]) == [7];
    assert [7, 4][..1] == [7];
    assert Dedup([7, 4]) == [7, 4];
    assert [7, 4, 11][..2] == [7, 4];
    assert Dedup([7, 4, 11]) == [7, 4, 11];
    assert [7, 4, 11, 11][..3] == [7, 4, 11];
    assert Dedup([7, 4, 11, 11]) == [7, 4, 11];
    assert [7, 4, 11, 11, 14][..4] == [7, 4, 11, 11];
  }

  /** The values of `lo..hi` missing from the key `HELLO`, in four pieces. */
  lemma MissingHello0To7()
    ensures Missing([7, 4, 11, 11, 14], 0, 7) == [0, 1, 2, 3, 5, 6]
  {
    var key := [7, 4, 11, 11, 14];
    assert Missing(key, 0, 1) == [0];
    assert Missing(key, 0, 2) == [0, 1];
    assert Missing(key, 0, 3) == [0, 1, 2];
    assert Missing(key, 0, 4) == [0, 1, 2, 3];
    assert Missing(key, 0, 5) == [0, 1, 2, 3];
    assert Missing(key, 0, 6) == [0, 1, 2, 3, 5];
  }

  lemma MissingHello7To14()
    ensures Missing([7, 4, 11, 11, 14], 7, 14) == [8, 9, 10, 12, 13]
  {
    var key := [7, 4, 11, 11, 14];
    assert Missing(key, 7, 8) == [];
    assert Missing(key, 7, 9) == [8];
    assert Missing(key, 7, 10) == [8, 9];
    assert Missing(key, 7, 11) == [8, 9, 10];
    assert Missing(key, 7, 12) == [8, 9, 10];
    assert Missing(key, 7, 13) == [8, 9, 10, 12];
  }

  lemma MissingHello14To20()
    ensures Missing([7, 4, 11, 11, 14], 14, 20) == [15, 16, 17, 18, 19]
  {
    var key := [7, 4, 11, 11, 14];
    assert Missing(key, 14, 15) == [];
    assert Missing(key, 14, 16) == [15];
    assert Missing(key, 14, 17) == [15, 16];
    assert Missing(key, 14, 18) == [15, 16, 17];
    assert Missing(key, 14, 19) == [15, 16, 17, 18];
  }

  lemma MissingHello20To26()
    ensures Missing([7, 4, 11, 11, 14], 20, 26) == [20, 21, 22, 23, 24, 25]
  {
    var key := [7, 4, 11, 11, 14];
    assert Missing(key, 20, 21) == [20];
    assert Missing(key, 20, 22) == [20, 21];
    assert Missing(key, 20, 23) == [20, 21, 22];
    assert Missing(key, 20, 24) == [20, 21, 22, 23];
    assert Missing(key, 20, 25) == [20, 21, 22, 23, 24];
  }

  lemma MissingHello0To14()
    ensures Missing([7, 4, 11, 11, 14], 0, 14) == [0, 1, 2, 3, 5, 6, 8, 9, 10, 12, 13]
  {
    MissingHello0To7();
    MissingHello7To14();
    MissingSplit([7, 4, 11, 11, 14], 0, 7, 14);
    assert [0, 1, 2, 3, 5, 6] + [8, 9, 10, 12, 13] == [0, 1, 2, 3, 5, 6, 8, 9, 10, 12, 13];
  }

  lemma MissingHello14To26()
    ensures Missing([7, 4, 11, 11, 14], 14, 26) == [15, 16, 17, 18, 19, 20, 21, 22, 23, 24, 25]
  {
    MissingHello14To20();
    MissingHello20To26();
    MissingSplit([7, 4, 11, 11, 14], 14, 20, 26);
    assert [15, 16, 17, 18, 19] + [20, 21, 22, 23, 24, 25] == [15, 16, 17, 18, 19, 20, 21, 22, 23, 24, 25];
  }

  lemma MissingHello0To26()
    ensures Missing([7, 4, 11, 11, 14], 0, 26) == [0, 1, 2, 3, 5, 6, 8, 9, 10, 12, 13, 15, 16, 17, 18, 19, 20, 21, 22, 23, 24, 25]
  {
    MissingHello0To14();
    MissingHello14To26();
    MissingSplit([7, 4, 11, 11, 14], 0, 14, 26);
    MissingHelloConcat();
  }

  lemma MissingHelloConcat()
    ensures [0, 1, 2, 3, 5, 6, 8, 9, 10, 12, 13] + [15, 16, 17, 18, 19, 20, 21, 22, 23, 24, 25]
         == [0, 1, 2, 3, 5, 6, 8, 9, 10, 12, 13, 15, 16, 17, 18, 19, 20, 21, 22, 23, 24, 25]
  {
  }

  /** The example of `fill_alphabet_from_start`: key `HELLO`, 26 letters. */
  lemma KeyedFromStartExample()
    ensures KeyedFromStart([7, 4, 11, 11, 14], 26)
         == [7, 4, 11, 14, 0, 1, 2, 3, 5, 6, 8, 9, 10, 12, 13, 15, 16, 17, 18, 19, 20, 21, 22, 23, 24, 25]
  {
    var key := [7, 4, 11, 11, 14];
    DedupHello();
    var d, m := Dedup(key), Missing(key, 0, 26);
    assert KeyedFromStart(key, 26) == d + m;
    MissingHello0To26();
    FromStartHelloConcat();
  }

  lemma FromStartHelloConcat()
    ensures [7, 4, 11, 14] + [0, 1, 2, 3, 5, 6, 8, 9, 10, 12, 13, 15, 16, 17, 18, 19, 20, 21, 22, 23, 24, 25]
         == [7, 4, 11, 14, 0, 1, 2, 3, 5, 6, 8, 9, 10, 12, 13, 15, 16, 17, 18, 19, 20, 21, 22, 23, 24, 25]
  {
  }

  lemma LastKeyLetterHello()
    ensures Dedup([7, 4, 11, 11, 14]) == [7, 4, 11, 14] && LastKeyLetter([7, 4, 11, 11, 14]) == 14
  {
    DedupHello();
  }

  /** The example of `fill_alphabet_continue`: key `HELLO`, 26 letters. */
  lemma KeyedContinueExample()
    ensures KeyedContinue([7, 4, 11, 11, 14], 26)
         == [7, 4, 11, 14, 15, 16, 17, 18, 19, 20, 21, 22, 23, 24, 25, 0, 1, 2, 3, 5, 6, 8, 9, 10, 12, 13]
  {
    var key := [7, 4, 11, 11, 14];
    LastKeyLetterHello();
    var d, a, b := Dedup(key), Missing(key, 14, 26), Missing(key, 0, 14);
    assert KeyedContinue(key, 26) == d + (a + b);
    MissingHello0To14();
    MissingHello14To26();
    ContinueHelloConcat();
  }

  lemma ContinueHelloConcat()
    ensures [7, 4, 11, 14] + ([15, 16, 17, 18, 19, 20, 21, 22, 23, 24, 25] + [0, 1, 2, 3, 5, 6, 8, 9, 10, 12, 13])
         == [7, 4, 11, 14, 15, 16, 17, 18, 19, 20, 21, 22, 23, 24, 25, 0, 1, 2, 3, 5, 6, 8, 9, 10, 12, 13]
  {
  }

  /** The first loop of both fills: deduplicate `key` into `result` via `existing`. */
  method FillKey(key: seq<int>, n: nat) returns (result: seq<int>, existing: seq<bool>, i: nat)
    requires InRange(key, n)
    ensures |result| == n && |existing| == n
    ensures i == |Dedup(key)| <= n && result[..i] == Dedup(key)
    ensures forall v :: 0 <= v < n ==> (existing[v] <==> v in key)
  {
    result := seq(n, _ => 0);
    existing := seq(n, _ => false);
    i := 0;
    for j := 0 to |key|
      invariant |result| == n && |existing| == n
      invariant i == |Dedup(key[..j])| <= n && result[..i] == Dedup(key[..j])
      invariant forall v :: 0 <= v < n ==> (existing[v] <==> v in key[..j])
    {
      KeyStep(key, j, n);
      if !existing[key[j]] {
        result := result[i := key[j]];
        i := i + 1;
      }
      existing := existing[key[j] := true];
    }
    assert key[..|key|] == key;
  }

  /** One step of the loop of `FillKey`: how the prefix and its deduplication grow. */
  lemma KeyStep(key: seq<int>, j: nat, n: nat)
    requires j < |key| && InRange(key, n)
    ensures forall v :: v in key[..j + 1] <==> v in key[..j] || v == key[j]
    ensures key[j] in key[..j] ==> Dedup(key[..j + 1]) == Dedup(key[..j])
    ensures key[j] !in key[..j] ==> Dedup(key[..j + 1]) == Dedup(key[..j]) + [key[j]]
    ensures |Dedup(key[..j + 1])| <= n
  {
    assert key[..j + 1] == key[..j] + [key[j]];
    assert key[..j + 1][..j] == key[..j];
    assert InRange(key[..j + 1], n);
    DedupInRange(key[..j + 1], n);
    DedupProps(key[..j + 1]);
    DistinctBounded(Dedup(key[..j + 1]), n);
  }

  /**
   * The later loops of both fills: append to `result[..i]` each value of
   * `lo..hi` that `existing` does not mark.
   */
  method FillMissing(key: seq<int>, n: nat, existing: seq<bool>, result: seq<int>, i: nat, lo: int, hi: int)
    returns (res: seq<int>, j: nat)
    requires |existing| == n && |result| == n && 0 <= lo <= hi <= n
    requires forall v :: 0 <= v < n ==> (existing[v] <==> v in key)
    requires i + |Missing(key, lo, hi)| <= n
    ensures |res| == n && j == i + |Missing(key, lo, hi)|
    ensures res[..j] == result[..i] + Missing(key, lo, hi)
  {
    res, j := result, i;
    assert Missing(key, lo, lo) == [];
    for v := lo to hi
      invariant |res| == n && j == i + |Missing(key, lo, v)| && j <= n
      invariant res[..j] == result[..i] + Missing(key, lo, v)
    {
      MissingSplit(key, lo, v + 1, hi);
      if !existing[v] {
        res := res[j := v];
        j := j + 1;
      }
    }
  }

  /** `fill_alphabet_from_start(key, n)` (`src/util/mod.rs`). */
  method FillAlphabetFromStart(key: seq<int>, n: nat) returns (result: seq<int>)
    requires InRange(key, n)
    ensures result == KeyedFromStart(key, n)
  {
    var existing: seq<bool>, i: nat;
    result, existing, i := FillKey(key, n);
    MissingCount(key, n);
    result, i := FillMissing(key, n, existing, result, i, 0, n);
    assert result == result[..i];
  }

  /** `fill_alphabet_continue(key, n)`; an empty key makes `i - 1` underflow. */
  method FillAlphabetContinue(key: seq<int>, n: nat) returns (result: seq<int>)
    requires |key| > 0 && InRange(key, n)
    ensures result == KeyedContinue(key, n)
  {
    var existing: seq<bool>, i: nat;
    result, existing, i := FillKey(key, n);
    DedupNonEmpty(key);
    var valStart := result[i - 1];
    assert valStart == LastKeyLetter(key);
    assert 0 <= valStart < n by { assert key[0] in key; }
    MissingSplit(key, 0, valStart, n);
    MissingCount(key, n);
    result, i := FillMissing(key, n, existing, result, i, valStart, n);
    result, i := FillMissing(key, n, existing, result, i, 0, valStart);
    assert result == result[..i];
  }

  /* ------------------------------------------------------------------ */
  /*                     consecutive and random fills                   */
  /* ------------------------------------------------------------------ */

  /** The content `fill_consecutive_vec` writes: `modulo(start + i, modulus)` at `i`. */
  function Consecutive(start: int, modulus: int, len: nat): (r: seq<int>)
    requires modulus != 0
    ensures |r| == len
  {
    seq(len, i => Modulo(start + i, modulus))
  }

  /** For a positive modulus every value written is in `0..modulus`. */
  lemma ConsecutiveInRange(start: int, modulus: int, len: nat)
    requires modulus > 0
    ensures InRange(Consecutive(start, modulus, len), modulus)
  {
    var r := Consecutive(start, modulus, len);
    forall i | 0 <= i < len ensures 0 <= r[i] < modulus {
      assert r[i] == Modulo(start + i, modulus);
    }
  }

  /** `fill_consecutive_vec(arr, start, modulus)`: overwrite `arr` in place. */
  method FillConsecutive(arr: array<int>, start: int, modulus: int)
    requires modulus != 0
    modifies arr
    ensures arr[..] == Consecutive(start, modulus, arr.Length)
  {
    var v := start;
    for i := 0 to arr.Length
      invariant v == start + i
      invariant forall j :: 0 <= j < i ==> arr[j] == Modulo(start + j, modulus)
    {
      arr[i] := Modulo(v, modulus);
      v := v + 1;
    }
  }

  /** Filling from 0 modulo `n` over `n` slots gives the identity permutation. */
  lemma ConsecutiveIsIdentity(n: nat)
    requires n > 0
    ensures Consecutive(0, n, n) == Identity(n)
  {
    var r := Consecutive(0, n, n);
    forall i | 0 <= i < n ensures r[i] == i {
      assert r[i] == Modulo(i, n);
      DivModUnique(i, n, 0, i);
    }
  }

  /** The documented example: ten slots modulo 5. */
  lemma ConsecutiveExample()
    ensures Consecutive(0, 5, 10) == [0, 1, 2, 3, 4, 0, 1, 2, 3, 4]
  {
    var r := Consecutive(0, 5, 10);
    forall i | 0 <= i < 10 ensures r[i] == [0, 1, 2, 3, 4, 0, 1, 2, 3, 4][i] {
      assert r[i] == Modulo(i, 5);
      if i < 5 { DivModUnique(i, 5, 0, i); } else { DivModUnique(i, 5, 1, i - 5); }
    }
  }

  /** A copy of `s` in a fresh array. */
  method ToArray(s: seq<int>) returns (arr: array<int>)
    ensures fresh(arr) && arr[..] == s
  {
    arr := new int[|s|](i requires 0 <= i < |s| => s[i]);
  }

  /**
   * `fill_random_array(arr, rng, max)`: the generator's draws are the input
   * `draws`, each in `0..max` as `gen_range(0..max)` yields them.
   */
  method FillRandomArray(arr: array<int>, draws: seq<int>, max: int)
    requires |draws| == arr.Length && InRange(draws, max)
    modifies arr
    ensures arr[..] == draws && InRange(arr[..], max)
  {
    for i := 0 to arr.Length
      invariant arr[..i] == draws[..i]
    {
      arr[i] := draws[i];
      assert arr[..i + 1] == arr[..i] + [arr[i]];
    }
  }

  /* ------------------------------------------------------------------ */
  /*                           swap and shuffle                         */
  /* ------------------------------------------------------------------ */

  /** `s` with the entries at `a` and `b` exchanged. */
  function Swapped(s: seq<int>, a: nat, b: nat): (r: seq<int>)
    requires a < |s| && b < |s|
    ensures |r| == |s| && r[a] == s[b] && r[b] == s[a]
    ensures forall k :: 0 <= k < |s| && k != a && k != b ==> r[k] == s[k]
  {
    s[a := s[b]][b := s[a]]
  }

  /** Exchanging two entries keeps the multiset of values. */
  lemma SwappedMultiset(s: seq<int>, a: nat, b: nat)
    requires a < |s| && b < |s|
    ensures multiset(Swapped(s, a, b)) == multiset(s)
  {
  }

  /** Exchanging two entries keeps a permutation a permutation. */
  lemma SwappedPermutation(s: seq<int>, a: nat, b: nat)
    requires a < |s| && b < |s| && IsPermutation(s)
    ensures IsPermutation(Swapped(s, a, b))
  {
    var r := Swapped(s, a, b);
    forall i, j | 0 <= i < j < |r| ensures r[i] != r[j] {
      var i' := if i == a then b else if i == b then a else i;
      var j' := if j == a then b else if j == b then a else j;
      assert r[i] == s[i'] && r[j] == s[j'];
    }
  }

  /** `swap(arr, a, b)` (`src/util.rs`). */
  method Swap(arr: array<int>, a: nat, b: nat)
    requires a < arr.Length && b < arr.Length
    modifies arr
    ensures arr[..] == Swapped(old(arr[..]), a, b)
  {
    var temp := arr[a];
    arr[a] := arr[b];
    arr[b] := temp;
  }

  /** After the first `k` steps of `shuffle`: step `i` swaps `i` with `picks[i]`. */
  function ShuffleSteps(s: seq<int>, picks: seq<int>, k: nat): (r: seq<int>)
    requires k <= |picks| == |s| && InRange(picks, |s|)
    ensures |r| == |s|
  {
    if k == 0 then s else Swapped(ShuffleSteps(s, picks, k - 1), k - 1, picks[k - 1])
  }

  function Shuffled(s: seq<int>, picks: seq<int>): (r: seq<int>)
    requires |picks| == |s| && InRange(picks, |s|)
    ensures |r| == |s|
  {
    ShuffleSteps(s, picks, |s|)
  }

  /** One step of the shuffle exchanges two entries, so it keeps the multiset. */
  lemma ShuffleStepMultiset(s: seq<int>, picks: seq<int>, k: nat)
    requires 0 < k <= |picks| == |s| && InRange(picks, |s|)
    ensures multiset(ShuffleSteps(s, picks, k)) == multiset(ShuffleSteps(s, picks, k - 1))
  {
    SwappedMultiset(ShuffleSteps(s, picks, k - 1), k - 1, picks[k - 1]);
  }

  lemma {:induction false} ShuffleStepsMultiset(s: seq<int>, picks: seq<int>, k: nat)
    requires k <= |picks| == |s| && InRange(picks, |s|)
    ensures multiset(ShuffleSteps(s, picks, k)) == multiset(s)
  {
    if k > 0 {
      var prev := ShuffleSteps(s, picks, k - 1);
      assert multiset(prev) == multiset(s) by {
        ShuffleStepsMultiset(s, picks, k - 1);
      }
      assert multiset(ShuffleSteps(s, picks, k)) == multiset(prev) by {
        ShuffleStepMultiset(s, picks, k);
      }
    }
  }

  lemma {:induction false} ShuffleStepsPermutation(s: seq<int>, picks: seq<int>, k: nat)
    requires k <= |picks| == |s| && InRange(picks, |s|) && IsPermutation(s)
    ensures IsPermutation(ShuffleSteps(s, picks, k))
  {
    if k > 0 {
      var t := ShuffleSteps(s, picks, k - 1);
      ShuffleStepsPermutation(s, picks, k - 1);
      SwappedPermutation(t, k - 1, picks[k - 1]);
    }
  }

  /** Shuffling keeps the multiset, and so keeps a permutation a permutation. */
  lemma ShuffledProps(s: seq<int>, picks: seq<int>)
    requires |picks| == |s| && InRange(picks, |s|)
    ensures multiset(Shuffled(s, picks)) == multiset(s)
    ensures IsPermutation(s) ==> IsPermutation(Shuffled(s, picks))
  {
    ShuffleStepsMultiset(s, picks, |s|);
    if IsPermutation(s) {
      ShuffleStepsPermutation(s, picks, |s|);
    }
  }

  /**
   * `shuffle(arr, rng)`: for each `i`, swap `arr[i]` with `arr[picks[i]]`, where
   * `picks[i]` stands for the draw `gen_range(0..arr.len())`.
   */
  method Shuffle(arr: array<int>, picks: seq<int>)
    requires |picks| == arr.Length && InRange(picks, arr.Length)
    modifies arr
    ensures arr[..] == Shuffled(old(arr[..]), picks)
    ensures multiset(arr[..]) == multiset(old(arr[..]))
  {
    ghost var s := arr[..];
    for i := 0 to arr.Length
      invariant arr[..] == ShuffleSteps(s, picks, i)
    {
      Swap(arr, i, picks[i]);
    }
    ShuffledProps(s, picks);
  }

  /* ------------------------------------------------------------------ */
  /*                                invert                              */
  /* ------------------------------------------------------------------ */

  /** `dest` after the first `k` writes `dest[p[i]] := i` of `invert`. */
  function InvertedUpTo(p: seq<int>, k: nat): (r: seq<int>)
    requires k <= |p| && InRange(p, |p|)
    ensures |r| == |p|
  {
    if k == 0 then seq(|p|, _ => 0) else InvertedUpTo(p, k - 1)[p[k - 1] := k - 1]
  }

  function Inverted(p: seq<int>): (r: seq<int>)
    requires InRange(p, |p|)
    ensures |r| == |p|
  {
    InvertedUpTo(p, |p|)
  }

  lemma {:induction false} InvertedUpToMaps(p: seq<int>, k: nat)
    requires k <= |p| && IsPermutation(p)
    ensures forall i :: 0 <= i < k ==> InvertedUpTo(p, k)[p[i]] == i
  {
    if k > 0 {
      InvertedUpToMaps(p, k - 1);
    }
  }

  /**
   * For a permutation, `invert` gives the inverse permutation: it undoes `p`
   * on both sides.
   */
  lemma InvertedIsInverse(p: seq<int>)
    requires IsPermutation(p)
    ensures IsPermutation(Inverted(p))
    ensures forall i :: 0 <= i < |p| ==> Inverted(p)[p[i]] == i
    ensures forall v :: 0 <= v < |p| ==> 0 <= Inverted(p)[v] < |p| && p[Inverted(p)[v]] == v
  {
    var r := Inverted(p);
    InvertedUpToMaps(p, |p|);
    forall v | 0 <= v < |p| ensures 0 <= r[v] < |p| && p[r[v]] == v {
      PermutationCovers(p, v);
      var i :| 0 <= i < |p| && p[i] == v;
    }
    forall v, w | 0 <= v < w < |p| ensures r[v] != r[w] {
      assert p[r[v]] == v && p[r[w]] == w;
    }
  }

  /** `invert(arr)`; an entry outside `0..arr.len()` would index out of bounds. */
  method Invert(arr: seq<int>) returns (dest: seq<int>)
    requires InRange(arr, |arr|)
    ensures dest == Inverted(arr)
  {
    dest := seq(|arr|, _ => 0);
    for i := 0 to |arr|
      invariant dest == InvertedUpTo(arr, i)
    {
      dest := dest[arr[i] := i];
    }
  }

  /** The documented example. */
  lemma InvertExample()
    ensures Inverted([2, 1, 3, 0, 4]) == [3, 1, 0, 2, 4]
  {
    var p := [2, 1, 3, 0, 4];
    assert InvertedUpTo(p, 1) == [0, 0, 0, 0, 0];
    assert InvertedUpTo(p, 2) == [0, 1, 0, 0, 0];
    assert InvertedUpTo(p, 3) == [0, 1, 0, 2, 0];
    assert InvertedUpTo(p, 4) == [3, 1, 0, 2, 0];
  }

  /* ------------------------------------------------------------------ */
  /*                              find_order                            */
  /* ------------------------------------------------------------------ */

  /** The number of entries of `s` below `v`. */
  function CountLess(s: seq<int>, v: int): (r: nat)
    ensures r <= |s|
  {
    if s == [] then 0 else CountLess(s[..|s| - 1], v) + (if s[|s| - 1] < v then 1 else 0)
  }

  /** The number of entries of `s` equal to `v`. */
  function CountEq(s: seq<int>, v: int): (r: nat)
    ensures r <= |s|
  {
    if s == [] then 0 else CountEq(s[..|s| - 1], v) + (if s[|s| - 1] == v then 1 else 0)
  }

  /** Moving the bound up by one adds the entries equal to the old bound. */
  lemma {:induction false} CountLessStep(s: seq<int>, v: int)
    ensures CountLess(s, v + 1) == CountLess(s, v) + CountEq(s, v)
  {
    if s != [] {
      CountLessStep(s[..|s| - 1], v);
    }
  }

  lemma {:induction false} CountLessMono(s: seq<int>, a: int, b: int)
    requires a <= b
    ensures CountLess(s, a) <= CountLess(s, b)
  {
    if s != [] {
      CountLessMono(s[..|s| - 1], a, b);
    }
  }

  /** With no entry at or above `v`, every entry is below it. */
  lemma {:induction false} CountLessAll(s: seq<int>, v: int)
    requires forall i :: 0 <= i < |s| ==> s[i] < v
    ensures CountLess(s, v) == |s|
  {
    if s != [] {
      CountLessAll(s[..|s| - 1], v);
    }
  }

  /** With every entry at or above `v`, none is counted. */
  lemma {:induction false} CountLessNone(s: seq<int>, v: int)
    requires forall i :: 0 <= i < |s| ==> s[i] >= v
    ensures CountLess(s, v) == 0
  {
    if s != [] {
      assert forall i :: 0 <= i < |s| - 1 ==> s[..|s| - 1][i] == s[i];
      CountLessNone(s[..|s| - 1], v);
    }
  }

  /** With every entry counted, every entry lies below the bound. */
  lemma {:induction false} CountLessFull(s: seq<int>, v: int)
    requires CountLess(s, v) == |s|
    ensures forall i :: 0 <= i < |s| ==> s[i] < v
  {
    if s != [] {
      CountLessFull(s[..|s| - 1], v);
      assert forall i :: 0 <= i < |s| - 1 ==> s[i] == s[..|s| - 1][i];
    }
  }

  /** Counting equal entries over a longer prefix never counts fewer. */
  lemma {:induction false} CountEqPrefixMono(s: seq<int>, a: nat, b: nat, v: int)
    requires a <= b <= |s|
    ensures CountEq(s[..a], v) <= CountEq(s[..b], v)
    decreases b
  {
    if b > a {
      assert s[..b][..b - 1] == s[..b - 1];
      CountEqPrefixMono(s, a, b - 1, v);
    }
  }

  /** The entry at `i` is counted once the prefix extends past `i`. */
  lemma CountEqPrefix(s: seq<int>, i: nat, j: nat)
    requires i < j <= |s|
    ensures CountEq(s[..i], s[i]) < CountEq(s[..j], s[i])
  {
    assert s[..i + 1][..i] == s[..i];
    CountEqPrefixMono(s, i + 1, j, s[i]);
  }

  /** The position `find_order` gives entry `i`: the entries below it, then the equal ones before it. */
  function Rank(key: seq<int>, i: nat): int
    requires i < |key|
  {
    CountLess(key, key[i]) + CountEq(key[..i], key[i])
  }

  function OrderOf(key: seq<int>): (r: seq<int>)
    ensures |r| == |key|
  {
    seq(|key|, i requires 0 <= i < |key| => Rank(key, i))
  }

  /** Entry `i` ranks below every position taken by a larger value. */
  lemma RankBelowNext(key: seq<int>, i: nat)
    requires i < |key|
    ensures 0 <= Rank(key, i) < CountLess(key, key[i] + 1) <= |key|
  {
    CountLessStep(key, key[i]);
    CountEqPrefix(key, i, |key|);
    assert key[..|key|] == key;
  }

  /** `find_order` yields a permutation of `0..|key|`. */
  lemma OrderIsPermutation(key: seq<int>)
    ensures IsPermutation(OrderOf(key))
  {
    var r := OrderOf(key);
    forall i | 0 <= i < |r| ensures 0 <= r[i] < |r| {
      RankBelowNext(key, i);
    }
    forall i, j | 0 <= i < j < |r| ensures r[i] != r[j] {
      if key[i] == key[j] {
        CountEqPrefix(key, i, j);
      } else if key[i] < key[j] {
        RankBelowNext(key, i);
        CountLessMono(key, key[i] + 1, key[j]);
      } else {
        RankBelowNext(key, j);
        CountLessMono(key, key[j] + 1, key[i]);
      }
    }
  }

  /** The order respects the key: smaller entries, and equal entries further left, rank lower. */
  lemma OrderIsStable(key: seq<int>, i: nat, j: nat)
    requires i < |key| && j < |key|
    ensures key[i] < key[j] ==> OrderOf(key)[i] < OrderOf(key)[j]
    ensures key[i] == key[j] && i < j ==> OrderOf(key)[i] < OrderOf(key)[j]
  {
    if key[i] == key[j] && i < j {
      CountEqPrefix(key, i, j);
    } else if key[i] < key[j] {
      RankBelowNext(key, i);
      CountLessMono(key, key[i] + 1, key[j]);
    }
  }

  /** The documented example: `HELLO` orders as `[1, 0, 2, 3, 4]`. */
  lemma OrderExample()
    ensures OrderOf([7, 4, 11, 11, 14]) == [1, 0, 2, 3, 4]
  {
    var key := [7, 4, 11, 11, 14];
    assert key[..4] == [7, 4, 11, 11] && key[..3] == [7, 4, 11];
    assert key[..2] == [7, 4] && key[..1] == [7] && key[..0] == [];
    assert [7, 4, 11][..2] == [7, 4] && [7, 4][..1] == [7] && [7][..0] == [];
    assert [7, 4, 11, 11][..3] == [7, 4, 11];
    assert CountLess(key, 7) == 1 && CountLess(key, 4) == 0;
    assert CountLess(key, 11) == 2 && CountLess(key, 14) == 4;
    assert CountEq([7, 4], 11) == 0 && CountEq([7, 4, 11], 11) == 1;
    var r := OrderOf(key);
    assert r[0] == 1 && r[1] == 0 && r[2] == 2 && r[3] == 3 && r[4] == 4;
  }

  /** An exclusive upper bound on the entries of `s`, at least 0. */
  function UpperBound(s: seq<int>): (r: int)
    ensures r >= 0 && forall i :: 0 <= i < |s| ==> s[i] < r
  {
    if s == [] then 0
    else
      var b := UpperBound(s[..|s| - 1]);
      assert forall i :: 0 <= i < |s| - 1 ==> s[i] == s[..|s| - 1][i];
      if s[|s| - 1] + 1 > b then s[|s| - 1] + 1 else b
  }

  /**
   * `find_order(key)`: for `idx = 0, 1, ...` give each entry equal to `idx`,
   * left to right, the next position. A negative entry is only reached once
   * `idx as i16` wraps around, which the model does not follow.
   */
  method FindOrder(key: seq<int>) returns (order: seq<int>)
    requires forall i :: 0 <= i < |key| ==> key[i] >= 0
    ensures order == OrderOf(key)
  {
    order := seq(|key|, _ => 0);
    var pos := 0;
    var idx := 0;
    CountLessNone(key, 0);
    while pos < |key|
      invariant 0 <= idx <= UpperBound(key) && pos == CountLess(key, idx)
      invariant |order| == |key|
      invariant forall i :: 0 <= i < |key| && key[i] < idx ==> order[i] == Rank(key, i)
      decreases UpperBound(key) - idx
    {
      assert idx < UpperBound(key) by {
        if idx >= UpperBound(key) { CountLessAll(key, idx); }
      }
      for i := 0 to |key|
        invariant |order| == |key|
        invariant pos == CountLess(key, idx) + CountEq(key[..i], idx)
        invariant forall j :: 0 <= j < |key| && key[j] < idx ==> order[j] == Rank(key, j)
        invariant forall j :: 0 <= j < i && key[j] == idx ==> order[j] == Rank(key, j)
      {
        assert key[..i + 1][..i] == key[..i];
        if key[i] == idx {
          order := order[i := pos];
          pos := pos + 1;
        }
      }
      assert key[..|key|] == key;
      CountLessStep(key, idx);
      idx := idx + 1;
    }
    CountLessFull(key, idx);
  }

  /* ------------------------------------------------------------------ */
  /*                     lowering key names for matching                */
  /* ------------------------------------------------------------------ */

  /** A character as `str::to_lowercase` lowers it, for the ASCII capitals. */
  function LowerAscii(c: char): (r: char)
    ensures 'A' <= c <= 'Z' ==> r as int == c as int + 32
    ensures !('A' <= c <= 'Z') ==> r == c
  {
    if 'A' <= c <= 'Z' then (c as int + 32) as char else c
  }

  /** `str::to_lowercase` on the ASCII capitals, character by character. */
  function Lowered(s: string): (r: string)
    ensures |r| == |s| && forall i :: 0 <= i < |s| ==> r[i] == LowerAscii(s[i])
  {
    seq(|s|, i requires 0 <= i < |s| => LowerAscii(s[i]))
  }

  /** Lowering is idempotent, so an already lowered name is its own lowering. */
  lemma LoweredTwice(s: string)
    ensures Lowered(Lowered(s)) == Lowered(s)
  {
  }
}
