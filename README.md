# classic_crypto in Dafny

A verified model of the core of `classic_crypto`, a Rust library of
classical ciphers. Its ciphers, keys and solvers all work on integer code
points `0..n`, where `n` is the length of the selected alphabet of a
`Language`. The model covers these layers:

- **Arithmetic and permutation helpers** (`src/util/mod.rs`, `src/util.rs`,
  `src/convert.rs`, `src/util/prime_gen.rs`):
  - Rust's truncating `/` and `%`, `modulo`, `gcd`, `extended_gcd` and `mmi`;
  - `is_unique`, the keyed alphabet fills, `fill_consecutive_vec`, `swap` and `shuffle`;
  - `invert` and the stable ranking `find_order`;
  - the `u16` letter conversions;
  - the prime generator and its trial-division `factor`.
- **Languages** (`src/lang/lang_alphabet.rs`, `src/lang/language.rs`, `src/lang.rs`):
  - the validation `LangAlphabet::init` performs, with the error returned for each failed check;
  - the `char_to_cp` table `init` builds;
  - the letter queries and conversions of a `Language`, and its set of alphabets of distinct lengths;
  - the older one-alphabet `Language` with code-point aliases.
- **Keys** (`src/key/`):
  - the substitution `Alphabet`, `Keyword` and `Number`;
  - the Solitaire deck `Cards`;
  - the Hill `Matrix`, with determinants, adjugate and inverse modulo 26;
  - the four Vigenère-family tableaux;
  - the Enigma plugboard, rotors and reflectors.
- **Ciphers** (`src/cipher/`):
  - the monoalphabetic ciphers: Caesar, affine, Atbash, ROT13, Baconian, Morse and simple substitution;
  - the polyalphabetic ciphers: classic and keyed Vigenère, autokey, Beaufort, Porta and Bellaso;
  - the Hill cipher and the Enigma machine;
  - the transpositions: rail fence, scytale, block and column.
- **Solvers**:
  - the coordinate-ascent Vigenère solver `vig_solve`;
  - the greedy column-order search `transposition_solve`;
  - the rail-fence and scytale `solve` sweeps.

  The n-gram scorer they call is not part of this model. Each solver takes
  it as an oracle returning a finite `f64`. For any such scorer the model
  proves what the solvers guarantee: key shape and ranges, permutations,
  a score that never falls, and the first best on ties. The column-order
  search also assumes scores above `f64::MIN` (see "## Left out").

Every cipher that maps letter by letter is stated against one shared
specification, `Letterwise.Relettered`: the `k`-th letter of the message
takes a new code point in its own case, and every other character is
copied. Each cipher's methods are proved to compute that specification,
and its round trip or involution is proved about it as a lemma.

Objects whose methods update fields in place are classes with `modifies`
clauses. Their `Vec` fields are `seq` fields that the methods reassign,
and their fixed buffers are arrays. The rail fence's index matrix is an
`array2`. Pure helpers are functions, and loops are methods with
invariants, proved against specification functions.

Randomness (`gen_range`, `fastrand`, `shuffle`) becomes parameters that
stand for the draws. I/O, printing and the command line are outside the
model.

## Model

| member | source | states |
|---|---|---|
| Arith.Rem | src/util/mod.rs:391 | Rust's remainder: smaller in magnitude than the divisor, with the sign of the dividend |
| Arith.QuotRem | src/util/mod.rs:340-341 | Rust's truncating quotient and remainder recombine to the dividend |
| Arith.Modulo | src/util/mod.rs:390-392 | for a positive modulus the result is the representative of `a` in `0..b` |
| Arith.ModuloExample | src/util/mod.rs:385-387 | `modulo(-10, 26)` is 16 |
| Arith.Gcd | src/util/mod.rs:363-369 | the gcd of non-negative arguments is non-negative |
| Arith.GcdDivides | src/util/mod.rs:363-369 | the gcd divides both arguments |
| Arith.GcdGreatest | src/util/mod.rs:363-369 | every common divisor divides the gcd |
| Arith.GcdCommutes | src/util/mod.rs:363-369 | for non-negative arguments the order of the arguments does not matter |
| Arith.GcdExample | src/util/mod.rs:356-360 | `gcd(24, 32)` is 8 |
| Arith.ExtendedGcd | src/util/mod.rs:336-344 | the coefficients satisfy Bezout's identity `a*x + b*y == g` |
| Arith.ExtendedGcdIsGcd | src/util/mod.rs:336-344 | the `g` returned is the gcd of the two arguments |
| Arith.Mmi | src/util/mod.rs:319-325 | an inverse in `0..b` is returned exactly when `a` and `b` are coprime; `None` means no inverse exists |
| Arith.MmiCorrect | src/util/mod.rs:319-325 | a Bezout pair with `g == 1` gives an inverse, any other `g` rules every inverse out |
| Arith.NoInverseUnlessCoprime | src/util/mod.rs:319-325 | an inverse modulo `b` exists only when the gcd is 1 |
| Arith.Quot | src/util/mod.rs:341 | Rust's `/` on integers, truncating toward zero (definition; see Arith.QuotRem) |
| Arith.BezoutStep | src/util/mod.rs:340-341 | the recursive step of `extended_gcd` turns a Bezout pair for `(b % a, a)` into one for `(a, b)` |
| Arith.IsInverse | src/util/mod.rs:316 | the property the `mmi` example checks: `a * m` is 1 modulo `b` (definition; see Arith.Mmi) |
| Arith.InverseFromBezout | src/util/mod.rs:320-322 | when `extended_gcd` gives `g == 1`, the coefficient of `a` reduced modulo `b` is an inverse of `a` |
| Util.IsUniqueAsWrittenAscii | src/util/mod.rs:24-28 | on ASCII text `is_unique` as written is true exactly when no character repeats |
| Util.IsUniqueAsWrittenMissesRepeat | src/util/mod.rs:24-28 | as written, `is_unique("éaa")` holds although `a` repeats |
| Util.IsUniqueEmpty | src/util/mod.rs:21 | the empty string is unique |
| Util.ByteOffsetAtLeast | src/util/mod.rs:26 | the byte offset of the `k`-th character is at least `k` |
| Util.UniqueAsWritten | src/util/mod.rs:24-28 | `is_unique` as written accepts every string in which no character repeats |
| Util.DedupProps | src/util/mod.rs:64-71 | the first loop keeps every key value exactly once, in order of first occurrence |
| Util.MissingProps | src/util/mod.rs:137-142 | the values appended are exactly those of the range not in the key, each once |
| Util.MissingCount | src/util/mod.rs:125-145 | the deduplicated key and the missing values together number exactly `n` |
| Util.KeyedFromStart | src/util/mod.rs:125-145 | `fill_alphabet_from_start` is a permutation of `0..n` that starts with the deduplicated key |
| Util.LastKeyLetter | src/util/mod.rs:73 | the value the continuing fill resumes from is the last entry of the deduplicated key |
| Util.KeyedContinue | src/util/mod.rs:60-92 | `fill_alphabet_continue` is a permutation of `0..n` that starts with the deduplicated key |
| Util.KeyedFromStartExample | src/util/mod.rs:113-122 | the documented `HELLO` example of `fill_alphabet_from_start` |
| Util.KeyedContinueExample | src/util/mod.rs:48-57 | the documented `HELLO` example of `fill_alphabet_continue` |
| Util.FillKey | src/util/mod.rs:64-71 | the loop leaves the deduplicated key in front and marks exactly the key's values as existing |
| Util.FillMissing | src/util/mod.rs:75-89 | each later loop appends exactly the unmarked values of its range, ascending |
| Util.FillAlphabetFromStart | src/util/mod.rs:125-145 | the loops compute `KeyedFromStart` |
| Util.FillAlphabetContinue | src/util/mod.rs:60-92 | the loops compute `KeyedContinue`, for a non-empty key |
| Util.Consecutive | src/util/mod.rs:166-172 | the fill has one entry per slot |
| Util.ConsecutiveInRange | src/util/mod.rs:166-172 | for a positive modulus every value written lies in `0..modulus` |
| Util.FillConsecutive | src/util.rs:56-60 | the array is overwritten with `modulo(start + i, modulus)` at each `i` |
| Util.ConsecutiveIsIdentity | src/util/mod.rs:166-172 | filling `n` slots from 0 modulo `n` gives the identity permutation |
| Util.ConsecutiveExample | src/util/mod.rs:161-163 | ten slots modulo 5 give `0,1,2,3,4,0,1,2,3,4` |
| Util.FillRandomArray | src/util/mod.rs:197-201 | the array holds the draws, each in `0..max` |
| Util.Swapped | src/util.rs:67-71 | the two entries are exchanged and every other entry is kept |
| Util.SwappedMultiset | src/util.rs:67-71 | a swap keeps the multiset of values |
| Util.SwappedPermutation | src/util.rs:67-71 | a swap keeps a permutation a permutation |
| Util.Swap | src/util.rs:67-71 | the array becomes the swapped sequence |
| Util.ShuffleStepsMultiset | src/util/mod.rs:222-227 | every prefix of the shuffle's swaps keeps the multiset |
| Util.ShuffledProps | src/util/mod.rs:222-227 | shuffling keeps the multiset, so a permutation stays a permutation |
| Util.Shuffle | src/util.rs:72-76 | the array becomes the shuffle of its old contents by the draws, with the same multiset |
| Util.InvertedIsInverse | src/util/mod.rs:244-257 | the inversion of a permutation is a permutation that undoes it on both sides |
| Util.Invert | src/util/mod.rs:251-257 | the loop computes the inversion `dest[arr[i]] = i` |
| Util.InvertExample | src/util/mod.rs:242-248 | `[2,1,3,0,4]` inverts to `[3,1,0,2,4]` |
| Util.OrderIsPermutation | src/util/mod.rs:259-298 | the order is a permutation of `0..len` |
| Util.OrderIsStable | src/util/mod.rs:259-298 | smaller keys rank lower, and equal keys rank left to right |
| Util.OrderExample | src/util/mod.rs:277-279 | `HELLO` orders as `[1, 0, 2, 3, 4]` |
| Util.FindOrder | src/util/mod.rs:282-298 | the loops compute the stable ranking `OrderOf` for non-negative keys |
| Util.LoweredTwice | src/key/enigma/rotor.rs:164-184 | lowering a name is idempotent |
| Util.IsUniqueAsWritten | src/util/mod.rs:24-28 | `is_unique` as written: the character at byte offset `idx` is compared with the characters after the first `idx + 1` (definition; see Util.UniqueAsWritten and Util.IsUniqueAsWrittenMissesRepeat) |
| Util.ByteOffset | src/util/mod.rs:26 | the index `char_indices` yields for the `k`-th character, the sum of the UTF-8 lengths before it (definition; see Util.ByteOffsetAtLeast) |
| Util.ByteOffsetAscii | src/util/mod.rs:26 | on ASCII text the byte offset of the `k`-th character is `k` |
| Util.Dedup | src/util/mod.rs:64-71 | the key values in order of first occurrence, each once (definition; see Util.DedupProps) |
| Util.Missing | src/util/mod.rs:75-89 | the values of a range that the key does not contain, ascending (definition; see Util.MissingProps) |
| Util.DedupInRange | src/util/mod.rs:64-71 | deduplicating a key of values in `0..n` keeps them in `0..n` |
| Util.DedupNonEmpty | src/util/mod.rs:64-73 | a non-empty key leaves a non-empty prefix, so `result[i - 1]` reads a key value |
| Util.MissingSplit | src/util/mod.rs:75-89 | the values missing from `lo..hi` are those missing from `lo..mid` followed by those missing from `mid..hi` |
| Util.DisjointKeyMissing | src/util/mod.rs:64-89 | no value both belongs to the deduplicated key and is appended as missing |
| Util.KeyThen | src/util/mod.rs:64-89 | the deduplicated key followed by distinct values from outside it is distinct, in range and at most `n` long |
| Util.MissingOutside | src/util/mod.rs:75-81 | the missing values of a range are distinct, in range and outside the key |
| Util.WrappedOutside | src/util/mod.rs:73-89 | the values missing from `val_start..n` then from `0..val_start` are distinct, in range and outside the key |
| Util.KeyStep | src/util/mod.rs:65-71 | one turn of the key loop adds the key value to the deduplicated prefix exactly when it was not there yet |
| Util.DedupHello | src/util/mod.rs:48-57 | the key `HELLO` deduplicates to `H, E, L, O` |
| Util.MissingHello0To26 | src/util/mod.rs:113-122 | the letters missing from `HELLO` are all the others, in alphabetical order |
| Util.LastKeyLetterHello | src/util/mod.rs:48-57 | the continuing fill of `HELLO` resumes after `O` |
| Util.ShuffleSteps | src/util/mod.rs:222-227 | the first `k` swaps of `shuffle` keep the length (see Util.ShuffleStepsMultiset) |
| Util.Shuffled | src/util/mod.rs:222-227 | `shuffle` with the given draws keeps the length (see Util.ShuffledProps) |
| Util.ShuffleStepMultiset | src/util/mod.rs:224-225 | one swap of the shuffle keeps the multiset of values |
| Util.ShuffleStepsPermutation | src/util/mod.rs:222-227 | every prefix of the shuffle's swaps keeps a permutation a permutation |
| Util.InvertedUpTo | src/util/mod.rs:252-255 | the first `k` writes `dest[arr[i]] = i` keep the length (see Util.InvertedUpToMaps) |
| Util.Inverted | src/util/mod.rs:251-257 | `invert` keeps the length (see Util.InvertedIsInverse) |
| Util.InvertedUpToMaps | src/util/mod.rs:252-255 | on a permutation, after `k` writes each of the first `k` values maps back to its index |
| Util.CountLess | src/util/mod.rs:287-295 | the entries below a value number at most the key's length |
| Util.CountEq | src/util/mod.rs:288-293 | the entries equal to a value number at most the key's length |
| Util.CountLessStep | src/util/mod.rs:287-295 | raising `idx` by one positions exactly the entries equal to the old `idx` |
| Util.CountLessFull | src/util/mod.rs:287 | once every entry is counted, every entry lies below the bound, so the loop has ranked them all |
| Util.Rank | src/util/mod.rs:288-291 | the position `find_order` gives entry `i`: the entries below it, then the equal ones before it (definition; see Util.RankBelowNext) |
| Util.OrderOf | src/util/mod.rs:282-298 | the order has one entry per key entry (see Util.OrderIsPermutation and Util.OrderIsStable) |
| Util.RankBelowNext | src/util/mod.rs:288-291 | an entry's rank is below the number of entries not exceeding its value, and below the length |
| Util.UpperBound | src/util/mod.rs:287-295 | a bound above every entry, so the outer loop of `find_order` ends by then |
| Util.LowerAscii | src/key/enigma/rotor.rs:165 | `to_lowercase` lowers the ASCII capitals by 32 and keeps every other character |
| Util.Lowered | src/key/enigma/rotor.rs:165 | `to_lowercase` lowers a string character by character |
| Util.IsUnique | src/util/mod.rs:13-23 | no character occurs twice, the meaning the doc examples of `is_unique` give (definition; see Util.IsUniqueAsWrittenAscii) |
| Util.Utf8Len | src/util/mod.rs:26 | the number of UTF-8 bytes of a character, by which `char_indices` advances (definition; see Util.ByteOffset) |
| LangAlphabets.CheckAccepts | src/lang/lang_alphabet.rs:79-171 | `init`'s checks pass exactly for alphabets of equal lengths, a matching scoring table, at most the maximum length, letters and joined substitutions that pass `is_unique` as written, pairs only and targets that are letters |
| LangAlphabets.CheckPrecedence | src/lang/lang_alphabet.rs:85-106 | the length difference is reported first, then the scoring table length, then the maximum length, then an upper alphabet that fails `is_unique` as written, then the lower one; the pairs error carries the upper substitutions |
| LangAlphabets.AsciiDistinct | src/lang/lang_alphabet.rs:99-131 | on ASCII alphabets and substitutions, passing `init`'s checks means no letter and no substitution character repeats |
| LangAlphabets.DistinctPasses | src/lang/lang_alphabet.rs:99-131 | alphabets and substitutions without repeats pass the repeated-character checks of `init` |
| LangAlphabets.CheckMissesRepeat | src/lang/lang_alphabet.rs:99-102 | `init`'s checks accept the upper alphabet `ÉBB`, whose `B` repeats |
| LangAlphabets.ConcatPairs | src/lang/lang_alphabet.rs:120-131 | joining pairs puts pair `i` at positions `2i` and `2i+1` |
| LangAlphabets.UniquePairs | src/lang/lang_alphabet.rs:120-140 | unique joined pairs have distinct sources, none of which is a target |
| LangAlphabets.LetterMapKeys | src/lang/lang_alphabet.rs:173-178 | the letter loop inserts exactly the letters of both alphabets |
| LangAlphabets.LetterMapValues | src/lang/lang_alphabet.rs:173-178 | each upper and lower letter maps to its own index, and every code point is below the length |
| LangAlphabets.AliasMap | src/lang/lang_alphabet.rs:181-193 | the substitution loop keeps every entry already present |
| LangAlphabets.AliasMapProps | src/lang/lang_alphabet.rs:181-193 | each source gets its target's code point, the existing entries stay and nothing else is added |
| LangAlphabets.CharToCpProps | src/lang/lang_alphabet.rs:172-195 | after a successful `init`, `upper[i]` and `lower[i]` map to `i`, each alias maps to its target's code point, every code point is below the length and there are no other keys |
| LangAlphabets.CharToCpLetters | src/lang/lang_alphabet.rs:172-178 | after a successful `init` on a canonical layout, `upper[i]` and `lower[i]` map to `i` |
| LangAlphabets.CharToCpAliases | src/lang/lang_alphabet.rs:180-193 | after a successful `init` on a canonical layout, each substitution source, lower and upper, maps to the code point of its target |
| LangAlphabets.CharToCpKeys | src/lang/lang_alphabet.rs:172-195 | after a successful `init` on a canonical layout, every key of the table is a letter or a substitution source, and every code point in it is below the length |
| LangAlphabets.InitTables | src/lang/lang_alphabet.rs:172-193 | the lower substitutions are applied to the letter table, then the upper ones, each finding its target |
| LangAlphabets.InsertLetters | src/lang/lang_alphabet.rs:172-178 | inserting the first `n` letter pairs gives the letter table `LetterMap` over them |
| LangAlphabets.InsertSubs | src/lang/lang_alphabet.rs:180-193 | one pass over a substitution list gives `AliasMap`: each pair's first character takes its target's code point, short entries are skipped |
| LangAlphabets.Init | src/lang/lang_alphabet.rs:79-199 | `init` reports the first failing check; the table is cleared first and on success is `CharToCp`, so running it again gives the same alphabet |
| LangAlphabets.Concat | src/lang/lang_alphabet.rs:120-131 | the substitutions joined end to end, as the fold builds them (definition; see LangAlphabets.ConcatPairs) |
| LangAlphabets.AllPairs | src/lang/lang_alphabet.rs:107-115 | every substitution has exactly two characters (definition; see LangAlphabets.CheckAccepts) |
| LangAlphabets.SomeTargetMissing | src/lang/lang_alphabet.rs:142-161 | some substitution's second character is not in the alphabet of its case (definition; see LangAlphabets.CheckAccepts) |
| LangAlphabets.Check | src/lang/lang_alphabet.rs:79-171 | `init`'s checks in the source's order, reporting the first that fails (definition; see LangAlphabets.CheckPrecedence) |
| LangAlphabets.Acceptable | src/lang/lang_alphabet.rs:79-171 | all of `init`'s checks as one conjunction (definition; see LangAlphabets.CheckAccepts) |
| LangAlphabets.LettersDistinct | src/lang/lang_alphabet.rs:99-131 | no letter of either case and no character of either joined substitution list repeats, as the repeat checks intend (definition; see LangAlphabets.AsciiDistinct) |
| LangAlphabets.LetterMap | src/lang/lang_alphabet.rs:173-178 | the table after the first `k` rounds of the letter loop (definition; see LangAlphabets.LetterMapValues) |
| LangAlphabets.Canonical | src/lang/lang_alphabet.rs:172-193 | the layout the table is built for: distinct letters, no letter of both cases, substitution sources outside both alphabets and the other case (definition; see LangAlphabets.CharToCpProps) |
| LangAlphabets.Letters | src/lang/lang_alphabet.rs:172-178 | the table once the letter loop has finished (definition; see LangAlphabets.InsertLetters) |
| LangAlphabets.LowerPass | src/lang/lang_alphabet.rs:172-193 | the table once the letters and the lower substitutions are in (definition; see LangAlphabets.LowerPassProps) |
| LangAlphabets.CharToCp | src/lang/lang_alphabet.rs:172-195 | `char_to_cp` after a successful `init` (definition; see LangAlphabets.CharToCpProps) |
| LangAlphabets.LettersThenAliases | src/lang/lang_alphabet.rs:172-193 | after the letters and one case's substitutions, every letter has its index, every source its target's code point, all code points are in range and only letters and sources are keys |
| LangAlphabets.LowerPassProps | src/lang/lang_alphabet.rs:172-193 | after the lower substitutions every letter keeps its index, each lower source has its target's code point, and only letters and lower sources are keys |
| LangAlphabets.UpperSourcesFresh | src/lang/lang_alphabet.rs:181-193 | each upper substitution finds its target in the table and its source absent, so the second pass only adds entries |
| LangAlphabets.Ascii | src/lang/lang_alphabet.rs:99-131 | every character is ASCII (definition; see LangAlphabets.AsciiDistinct) |
| Languages.CpToUpper | src/lang/language.rs:103-107 | a valid code point gives a letter of the uppercase alphabet |
| Languages.CpToLower | src/lang/language.rs:115-119 | a valid code point gives a letter of the lowercase alphabet |
| Languages.InitWellFormed | src/lang/lang_alphabet.rs:172-195 | a successful `init` on a canonical layout yields a well-formed alphabet: equal case lengths and `upper[i]`, `lower[i]` at code point `i` |
| Languages.WFMapped | src/lang/language.rs:127-147 | on a well-formed alphabet every letter of either case has a code point with letters in both cases |
| Languages.UpdateCpProps | src/lang/language.rs:86-95 | `update_cp` yields a letter of the new code point in the case of the letter it replaces |
| Languages.CaseMapProps | src/lang/language.rs:127-147 | `to_lower` and `to_upper` leave non-letters unchanged, keep every letter's code point and give the requested case |
| Languages.StringToVecProps | src/lang/language.rs:241-247 | one entry per letter of the string, each a valid code point |
| Languages.StringToVecAppend | src/lang/language.rs:241-247 | conversion distributes over concatenation |
| Languages.VecToString | src/lang/language.rs:230-232 | one letter per code point |
| Languages.VecToStringRoundTrip | src/lang/language.rs:230-247 | converting code points to letters and back gives the code points |
| Languages.SubstitutedAppend | src/lang/language.rs:356-366 | substitution distributes over concatenation |
| Languages.SubstitutedNoKeys | src/lang/language.rs:356-366 | a string with no table key comes out unchanged |
| Languages.SubstitutedExample | src/lang/language.rs:356-366 | with `Æ -> AE` the string `ÆON` becomes `AEON` |
| Languages.FirstWithLength | src/lang/language.rs:47 | the position found holds an alphabet of that length and no earlier one does; none is found exactly when no alphabet has it |
| Languages.WithoutLengthMembers | src/lang/language.rs:275-277 | `retain` keeps exactly the alphabets of another length |
| Languages.WithoutLengthKeeps | src/lang/language.rs:275-277 | deleting an absent length keeps the list as it was |
| Languages.WithoutLengthDistinct | src/lang/language.rs:275-277 | deleting keeps the alphabet lengths distinct |
| Languages.AppendDistinct | src/lang/language.rs:259-266 | appending an alphabet of a new length keeps the lengths distinct |
| Languages.Language.constructor | src/lang/language.rs:11-31 | the default language has no alphabets and an empty table |
| Languages.Language.SetAlphLen | src/lang/language.rs:46-53 | true exactly when an alphabet of that length exists, then the first of them is selected; otherwise the selection is unchanged |
| Languages.Language.AddAlphabet | src/lang/language.rs:259-266 | an existing length is refused and nothing changes, otherwise the alphabet is appended; distinct lengths stay distinct |
| Languages.Language.DelAlphabet | src/lang/language.rs:275-277 | exactly the alphabets of other lengths remain, in order |
| Languages.Language.AddSubstitution | src/lang/language.rs:302-306 | a new key is added to the table, nothing else changes |
| Languages.Language.DelSubstitution | src/lang/language.rs:325-329 | an existing key is removed from the table, nothing else changes |
| Languages.Language.ClearSubstitutions | src/lang/language.rs:333-335 | the table becomes empty, nothing else changes |
| Languages.Language.SubstituteString | src/lang/language.rs:356-366 | the loop computes `Substituted`: each table key replaced by its string, each other character copied |
| Languages.IsLetter | src/lang/language.rs:155-157 | a character is a letter exactly when the selected alphabet gives it a code point (definition; see Languages.WFMapped) |
| Languages.GetCp | src/lang/language.rs:69-73 | the code point of a letter; only letters are accepted (definition; see Languages.UpdateCpProps) |
| Languages.CpCount | src/lang/language.rs:209-211 | the number of code points is the alphabet length (definition; see Languages.StringToVecProps) |
| Languages.MaxCp | src/lang/language.rs:203-205 | the largest code point is one less than the count (definition; see Languages.StringToVecProps) |
| Languages.ValidCp | src/lang/language.rs:197-199 | a code point is valid when it lies between 0 and the largest code point (definition; see Languages.StringToVecProps) |
| Languages.IsUpper | src/lang/language.rs:175-178 | uppercase means an uppercase letter or the first character of an uppercase substitution (definition; see Languages.CaseMapProps) |
| Languages.IsLower | src/lang/language.rs:186-189 | lowercase means a lowercase letter or the first character of a lowercase substitution (definition; see Languages.CaseMapProps) |
| Languages.UpdateCp | src/lang/language.rs:86-95 | the letter of the new code point in the case of the old letter (definition; see Languages.UpdateCpProps) |
| Languages.ToLower | src/lang/language.rs:127-133 | an uppercase letter becomes the lowercase letter of its code point, anything else is kept (definition; see Languages.CaseMapProps) |
| Languages.ToUpper | src/lang/language.rs:141-147 | a lowercase letter becomes the uppercase letter of its code point, anything else is kept (definition; see Languages.CaseMapProps) |
| Languages.WF | src/lang/lang_alphabet.rs:172-195 | the table `init` builds: equal case lengths, `upper[i]` and `lower[i]` at code point `i`, only letters and substitution sources mapped, every code point valid (definition; see Languages.InitWellFormed) |
| Languages.TableWellFormed | src/lang/lang_alphabet.rs:172-195 | a table holding the two letter rows at their positions, every substitution source, and nothing else in range is well formed |
| Languages.LetterCount | src/lang/language.rs:241-247 | the number of characters that are letters (definition; see Languages.StringToVecProps) |
| Languages.StringToVec | src/lang/language.rs:241-247 | the code points of the letters of a string, in order, punctuation dropped (definition; see Languages.StringToVecProps) |
| Languages.Substituted | src/lang/language.rs:356-366 | each character with a table entry replaced by its string, every other character kept (definition; see Languages.SubstitutedAppend) |
| Languages.WithoutLength | src/lang/language.rs:275-277 | the alphabets whose length differs from the given one, in order (definition; see Languages.WithoutLengthMembers) |
| Languages.Language.Alph | src/lang/language.rs:36-38 | the selected alphabet; only a selection inside the list is accepted (definition; see Languages.Language.SetAlphLen) |
| Languages.StartsSome | src/lang/language.rs:175-189 | some substitution string starts with the character (definition; see Languages.IsUpper) |
| Languages.Mapped | src/lang/language.rs:115-133 | the letter has a code point that indexes the lowercase alphabet, as `to_lower` and `to_upper` need (definition; required by Languages.ToLower) |
| Languages.DistinctLengths | src/lang/language.rs:275-277 | no two alphabets share a length (definition; see Languages.WithoutLengthDistinct) |
| English.RawAccepted | src/lang.rs:67-84 | the 26-letter Latin alphabet passes every check of `init` |
| English.AlphabetWF | src/lang.rs:67-84 | once initialised it is well formed with 26 code points |
| English.LetterCodes | src/lang.rs:78-82 | `A`..`Z` and `a`..`z` are letters at code points 0..25 |
| English.NonLetter | src/lang.rs:701-703 | no other character is a letter |
| English.LetterCases | src/lang.rs:760-791 | uppercase letters are upper and not lower, and the reverse |
| English.HelloCodes | src/lang.rs:555-559 | the code points of the letters of `hello` |
| English.Upper | src/lang.rs:72 | the uppercase alphabet has 26 characters, the `i`-th with code 65 + `i` |
| English.Lower | src/lang.rs:73 | the lowercase alphabet has 26 characters, the `i`-th with code 97 + `i` |
| English.Raw | src/lang.rs:67-84 | the 26-letter alphabet before `init`: no substitutions and a zero scoring table (definition; see English.RawAccepted) |
| English.Alphabet | src/lang.rs:67-84 | the same alphabet after `init` (definition; see English.AlphabetWF) |
| English.FreshLetters | src/lang.rs:87-90 | each letter pair is new when its round of `new_cp` comes, so the assertions of `new_cp` hold |
| English.Table | src/lang.rs:75-84 | the initialised table is the one the 26 letter rounds build |
| LegacyLang.Language.constructor | src/lang.rs:16-42 | the default language is empty and keeps the layout invariant |
| LegacyLang.Language.VecToString | src/lang.rs:534-536 | one letter per code point |
| LegacyLang.Language.NewCp | src/lang.rs:87-103 | the returned code point is the old length, both letters map to it, both alphabets grow by one and the layout is kept |
| LegacyLang.Language.EditCp | src/lang.rs:136-144 | every old entry of `cp` is dropped, the new letters map to `cp`, other code points keep their entries |
| LegacyLang.Language.AddCpAlias | src/lang.rs:190-195 | the alias becomes a letter of the given code point, nothing else changes |
| LegacyLang.Language.DelCpAlias | src/lang.rs:231-235 | the alias is no longer a letter, nothing else changes |
| LegacyLang.Language.PopCp | src/lang.rs:261-272 | the greatest code point, its letters and all its aliases are removed and the length drops by one |
| LegacyLang.Language.ClearAllCp | src/lang.rs:300-305 | no character is a letter and the length is 0 |
| LegacyLang.Language.AddSubstitution | src/lang.rs:330-334 | a new key is added to the table, nothing else changes |
| LegacyLang.Language.DelSubstitution | src/lang.rs:353-357 | an existing key is removed, nothing else changes |
| LegacyLang.Language.ClearSubstitutions | src/lang.rs:361-363 | the table becomes empty, nothing else changes |
| LegacyLang.Language.SubstituteString | src/lang.rs:590-600 | each table key is replaced by its string and every other character copied |
| LegacyLang.AliasRoundTrip | src/lang.rs:190-235 | adding an alias and then deleting it restores the table |
| LegacyLang.UpdateCpCode | src/lang.rs:433-442 | `update_cp` yields a letter of the requested code point |
| LegacyLang.UpdateCpCase | src/lang.rs:433-442 | `update_cp` keeps the case of the letter it replaces |
| LegacyLang.ValidCpRange | src/lang.rs:805-821 | `valid_cp` holds exactly on `0..len`; for 26 letters -1 and 26 are invalid, 0 and 25 valid |
| LegacyLang.AddLetters | src/lang.rs:75-80 | `new_cp` on each pair of unused letters in turn gives pair `i` code point `i`: the letter table `LetterMap` over all pairs |
| LegacyLang.NewEnglish | src/lang.rs:67-84 | 26 calls of `new_cp` build the Latin alphabet with `A`, `a` at 0 and `Z`, `z` at 25 |
| LegacyLang.HelloExample | src/lang.rs:555-559 | `string_to_vec("hello")` is `[7, 4, 11, 11, 14]` |
| LegacyLang.HelloString | src/lang.rs:520-532 | `vec_to_string([7, 4, 11, 11, 14])` is `HELLO` |
| LegacyLang.WithoutCp | src/lang.rs:139 | the table without any entry of the given code point (definition; see LegacyLang.Language.EditCp) |
| LegacyLang.Language.Valid | src/lang.rs:87-103 | the layout every operation keeps: both alphabets of the recorded length, `upper[i]` and `lower[i]` at `i`, every entry a valid code point (definition; see LegacyLang.Language.NewCp) |
| LegacyLang.Language.IsLetter | src/lang.rs:701-703 | a letter is any character in the table, alias or not (definition; see LegacyLang.Language.AddCpAlias) |
| LegacyLang.Language.GetCp | src/lang.rs:394-398 | the code point of a letter; only letters are accepted (definition; see LegacyLang.UpdateCpCode) |
| LegacyLang.Language.CpCount | src/lang.rs:865-867 | the number of code points is the alphabet length (definition; see LegacyLang.ValidCpRange) |
| LegacyLang.Language.MaxCp | src/lang.rs:842-844 | the largest code point is one less than the count (definition; see LegacyLang.ValidCpRange) |
| LegacyLang.Language.ValidCp | src/lang.rs:819-821 | a code point is valid when it lies between 0 and the largest (definition; see LegacyLang.ValidCpRange) |
| LegacyLang.Language.CpToUpper | src/lang.rs:469-473 | the uppercase letter of a valid code point (definition; see LegacyLang.UpdateCpCode) |
| LegacyLang.Language.CpToLower | src/lang.rs:500-504 | the lowercase letter of a valid code point (definition; see LegacyLang.UpdateCpCode) |
| LegacyLang.Language.IsUpper | src/lang.rs:760-762 | uppercase means in the uppercase alphabet; aliases have no case (definition; see LegacyLang.UpdateCpCase) |
| LegacyLang.Language.IsLower | src/lang.rs:789-791 | lowercase means in the lowercase alphabet (definition; see LegacyLang.UpdateCpCase) |
| LegacyLang.Language.UpdateCp | src/lang.rs:433-442 | the letter of the new code point in the case of the old letter (definition; see LegacyLang.UpdateCpCode) |
| LegacyLang.Language.ToLower | src/lang.rs:631-637 | an uppercase letter becomes the lowercase letter of its code point, anything else is kept (definition; see Languages.CaseMapProps) |
| LegacyLang.Language.ToUpper | src/lang.rs:665-671 | a lowercase letter becomes the uppercase letter of its code point, anything else is kept (definition; see Languages.CaseMapProps) |
| LegacyLang.Language.View | src/lang.rs:16-42 | the language read as one alphabet without substitutions (definition; see LegacyLang.HelloExample) |
| LegacyLang.Language.StringToVec | src/lang.rs:563-569 | the code points of the letters of a string, in order (definition; see LegacyLang.HelloExample) |
| LegacyLang.FreshPair | src/lang.rs:87-90 | neither letter of the next pair is already in use, as `new_cp` asserts (definition; see LegacyLang.AddLetters) |
| Letterwise.Relettered | src/cipher/monoalph/caesar.rs:11-21 | relettering keeps the message length |
| Letterwise.ReletteredAt | src/cipher/monoalph/caesar.rs:11-21 | non-letters are copied in place, and the letter at `i` gets the code point numbered by the letters before it |
| Letterwise.ReletteredIndex | src/cipher/monoalph/caesar.rs:11-21 | the same at one position: a non-letter is copied, a letter gets the code point numbered by the letters before it |
| Letterwise.Slot | src/cipher/polyalph/classic_vig.rs:24 | the keyword slot `count % self.keyword.len()` is below the keyword length |
| Letterwise.SlotMod | src/cipher/polyalph/classic_vig.rs:24 | the slot is the remainder of the letter count by the keyword length |
| Letterwise.LetterAt | src/lang/language.rs:241-247 | a letter at position `i` has fewer letters before it than the whole message has |
| Letterwise.Rebuilt | src/cipher/polyalph/classic_vig.rs:18-32 | the state of the counted walk after `i` characters: `count` letters seen and the relettered prefix written (definition; see Letterwise.RebuiltSnoc) |
| Letterwise.RebuiltStart | src/cipher/polyalph/classic_vig.rs:18-19 | the walk starts with `count = 0` and nothing written |
| Letterwise.RebuiltAhead | src/cipher/polyalph/classic_vig.rs:21-24 | at a letter the message has letters, so the keyword is only needed then |
| Letterwise.RebuiltLetter | src/cipher/polyalph/classic_vig.rs:21-26 | at a letter, `count` indexes the code point `get_cp` reads from it |
| Letterwise.RebuiltSnoc | src/cipher/polyalph/classic_vig.rs:20-31 | a letter written with code point `count` of the result, or a non-letter copied, moves the walk on by one character |
| Letterwise.RebuiltDone | src/cipher/polyalph/classic_vig.rs:17-33 | after the whole message the walk has written the relettered message, the message itself when it has no letters |
| Letterwise.ReletteredLetters | src/cipher/monoalph/caesar.rs:11-21 | the result's letters are letters of the same case carrying the new code points |
| Letterwise.ReletteredPointwise | src/cipher/monoalph/caesar.rs:11-21 | a per-letter map `f` leaves `f(cp)` where the message had `cp`, keeping case and non-letters |
| Letterwise.ReletteredVec | src/cipher/monoalph/caesar.rs:11-21 | reading back the code points of the result gives the code points written |
| Letterwise.ReletteredTwice | src/cipher/monoalph/caesar.rs:11-21 | relettering twice equals relettering once with the second code points |
| Letterwise.ReletteredUndone | src/cipher/monoalph/caesar.rs:11-21 | relettering a message of plain letters is undone by relettering with its own code points |
| Letterwise.ReletteredOwn | src/cipher/monoalph/caesar.rs:11-21 | a message of plain letters relettered with its own code points is unchanged |
| Letterwise.Cased | src/lang/language.rs:103-119 | both cases have a letter for every code point (definition; see Letterwise.ReletteredLetters) |
| Letterwise.TableauAlphabet | src/key/vigenere_square/classic_vig_square.rs:11-25 | an alphabet of 26 code points, one per tableau row (definition; see ClassicVigenere.ClassicVigenere.Encrypt) |
| Letterwise.KeyUsable | src/cipher/polyalph/classic_vig.rs:21-27 | a keyword of at least one letter, each below 26, which `count % self.keyword.len()` and the tableau lookups demand once a letter is reached (definition; the methods ask for it only when the message has letters) |
| Letterwise.PlainLetters | src/lang/language.rs:103-119 | every letter of the message is its alphabet's own letter for its code point, not an alias (definition; see Letterwise.ReletteredOwn) |
| Letterwise.LetterCountAppend | src/lang/language.rs:241-247 | the letter count of a concatenation is the sum of the counts |
| Letterwise.PrefixStep | src/lang/language.rs:241-247 | extending a prefix by one character adds one letter and its code point exactly when the character is a letter |
| Letterwise.ReletteredNoLetters | src/cipher/polyalph/classic_vig.rs:17-33 | a message without letters comes back unchanged, as the `map` copies every non-letter |
| Letterwise.ReletteredSnoc | src/cipher/monoalph/caesar.rs:11-21 | mapping one more character of the message extends the relettered prefix by that character's image |
| Letterwise.LetterOfCode | src/lang/language.rs:241-247 | every code point `string_to_vec` yields is read from some letter of the message |
| Letterwise.Updatable | src/lang/language.rs:86-95 | giving a letter a code point yields a letter of that code point and the same case (definition; see Letterwise.WFUpdatable) |
| Letterwise.WFUpdatable | src/lang/language.rs:86-95 | on a well-formed alphabet `update_cp` yields a letter of the requested code point and the same case |
| Letterwise.UpdatableVec | src/cipher/monoalph/caesar.rs:11-21 | relettering keeps the letter count, and reading back the code points gives those written |
| Letterwise.CharAppended | src/lang/language.rs:241-247 | appending one character adds one letter and its code point exactly when it is a letter |
| Letterwise.UpdatableTwice | src/cipher/monoalph/caesar.rs:11-21 | relettering twice equals relettering once with the second code points |
| Letterwise.OwnCodes | src/cipher/monoalph/caesar.rs:11-21 | a message of plain letters relettered with its own code points is unchanged |
| Caesar.ShiftedCps | src/cipher/monoalph/caesar.rs:15 | shifted code points stay in the alphabet |
| Caesar.ShiftedBack | src/cipher/monoalph/caesar.rs:15-28 | shifting by `-shift` undoes shifting by `shift` |
| Caesar.EncryptedLetters | src/cipher/monoalph/caesar.rs:10-22 | non-letters are copied; a letter keeps its case and moves `shift` code points, modulo the alphabet length |
| Caesar.DecryptedLetters | src/cipher/monoalph/caesar.rs:23-35 | non-letters are copied; a letter keeps its case and moves back `shift` code points |
| Caesar.RoundTrip | src/cipher/monoalph/caesar.rs:10-35 | decryption undoes encryption and encryption undoes decryption |
| Caesar.ZeroShift | src/cipher/monoalph/caesar.rs:39-44 | with the shift of `new` and `reset` encryption changes nothing |
| Caesar.Caesar.constructor | src/cipher/monoalph/caesar.rs:39-41 | a new cipher has shift 0 |
| Caesar.Caesar.Reset | src/cipher/monoalph/caesar.rs:42-44 | the shift becomes 0 |
| Caesar.Caesar.Randomize | src/cipher/monoalph/caesar.rs:45-47 | the shift becomes the draw from `0..cp_count` |
| Caesar.ShiftBack | src/cipher/monoalph/caesar.rs:15-28 | moving a code point forward and then back by the same amount modulo the length returns it |
| Caesar.Encrypted | src/cipher/monoalph/caesar.rs:10-22 | each letter moved `shift` code points modulo the length in its own case, other characters copied (definition; see Caesar.EncryptedLetters) |
| Caesar.Decrypted | src/cipher/monoalph/caesar.rs:23-35 | each letter moved back `shift` code points modulo the length (definition; see Caesar.DecryptedLetters) |
| Caesar.DecryptUndoesEncrypt | src/cipher/monoalph/caesar.rs:10-35 | decryption undoes encryption on a message of plain letters |
| Atbash.MirroredCps | src/cipher/monoalph/atbash.rs:12 | mirrored code points stay in the alphabet |
| Atbash.RanLetters | src/cipher/monoalph/atbash.rs:7-19 | non-letters are copied; a letter keeps its case and becomes the letter as far from the end as it was from the start |
| Atbash.Involution | src/cipher/monoalph/atbash.rs:7-19 | running twice gives the message back |
| Atbash.Ran | src/cipher/monoalph/atbash.rs:7-19 | each letter given code point `n - 1 - cp` in its own case, other characters copied (definition; see Atbash.RanLetters) |
| Rot13.HalfCps | src/cipher/monoalph/rot13.rs:13 | where no code point is past the middle, the results stay in the alphabet |
| Rot13.AsWrittenPanics | src/cipher/monoalph/rot13.rs:7-20 | as written `run` panics exactly for an odd alphabet length or a letter past the middle |
| Rot13.AsWrittenTwice | src/cipher/monoalph/rot13.rs:7-20 | where as written `run` succeeds, it undoes itself |
| Rot13.RotatedCps | src/cipher/monoalph/rot13.rs:13 | rotated code points stay in the alphabet |
| Rot13.RotatedTwice | src/cipher/monoalph/rot13.rs:13 | two half turns are the identity |
| Rot13.RanLetters | src/cipher/monoalph/rot13.rs:7-20 | the intended rotation copies non-letters and moves each letter half way round in its own case |
| Rot13.Involution | src/cipher/monoalph/rot13.rs:7-20 | the intended rotation fails only on an odd length and undoes itself |
| Rot13.AsWrittenCounterexample | src/cipher/monoalph/rot13.rs:13 | on the English alphabet as written `run` fails on `Z` and sends `B` to `M`, where ROT13 sends `B` to `O` and `Z` to `M` |
| Rot13.PastMiddle | src/cipher/monoalph/rot13.rs:13 | some code point lies past the middle of the alphabet (definition; see Rot13.AsWrittenPanics) |
| Rot13.RanAsWritten | src/cipher/monoalph/rot13.rs:7-20 | `run` as written, code point `n / 2 - cp`, with no result where it panics (definition; see Rot13.AsWrittenPanics) |
| Rot13.Ran | src/cipher/monoalph/rot13.rs:7-20 | ROT13 as intended, half way round the alphabet after the even-length assertion (definition; see Rot13.Involution) |
| Rot13.HalfTurns | src/cipher/monoalph/rot13.rs:13 | half a turn and half a turn again bring a code point back on an even alphabet |
| Rot13.RotatedAt | src/cipher/monoalph/rot13.rs:13 | the `k`-th rotated code point is the `k`-th code point plus `n / 2` modulo `n` |
| Rot13.EnglishFacts | src/cipher/monoalph/rot13.rs:7-20 | the English letters the counterexample uses: `B` at 1, `M` at 12, `O` at 14, `Z` at 25 (definition; see Rot13.EnglishLetters) |
| Rot13.EnglishLetters | src/cipher/monoalph/rot13.rs:7-20 | the English alphabet has those letters at those code points |
| Rot13.OneLetter | src/cipher/monoalph/rot13.rs:7-20 | a one-letter message has one code point and is relettered to the letter of the new code point |
| Rot13.Counterexample | src/cipher/monoalph/rot13.rs:13 | as written `run` fails on `Z` and sends `B` to `M`, where ROT13 sends `B` to `O` and `Z` to `M` |
| Affine.AffineCps | src/cipher/monoalph/affine.rs:37 | encrypted code points stay in the alphabet |
| Affine.UnaffineCps | src/cipher/monoalph/affine.rs:52 | decrypted code points stay in the alphabet |
| Affine.AffineCpsBack | src/cipher/monoalph/affine.rs:37-52 | with an inverse of `a`, the two maps undo each other on code points |
| Affine.EncryptedLetters | src/cipher/monoalph/affine.rs:32-44 | non-letters are copied; a letter keeps its case and gets code point `(a*cp + b) mod n` |
| Affine.DecryptPanics | src/cipher/monoalph/affine.rs:45-47 | decryption panics exactly when `a` has no inverse modulo a non-empty alphabet length |
| Affine.DecryptedLetters | src/cipher/monoalph/affine.rs:45-59 | decryption copies non-letters and gives each letter code point `(mmi*(cp - b)) mod n` in its own case |
| Affine.RoundTrip | src/cipher/monoalph/affine.rs:32-59 | with `a` coprime to the length, decryption undoes encryption and encryption undoes decryption |
| Affine.ResetKeyIdentity | src/cipher/monoalph/affine.rs:63-69 | the key of `new` and `reset` changes nothing |
| Affine.KnownPairPanics | src/cipher/monoalph/affine.rs:21-22 | `solve_known_pair` panics exactly when `p0 - p1` is not invertible modulo `n` |
| Affine.KnownPairSolves | src/cipher/monoalph/affine.rs:13-28 | the solved key lies in `0..n` and maps both known plaintexts to their ciphertexts |
| Affine.UnitsMembers | src/cipher/monoalph/affine.rs:71-72 | the candidates for `a` are exactly the values coprime to `n` |
| Affine.UnitDrawnInvertible | src/cipher/monoalph/affine.rs:70-74 | the `a` chosen, or the fallback 1, is coprime to `n`, so decryption succeeds |
| Affine.Affine.constructor | src/cipher/monoalph/affine.rs:63-65 | a new cipher has `a = 1`, `b = 0` |
| Affine.Affine.Reset | src/cipher/monoalph/affine.rs:66-69 | the key becomes `a = 1`, `b = 0` |
| Affine.Affine.Randomize | src/cipher/monoalph/affine.rs:70-76 | `a` is the drawn unit and `b` the draw from `0..n`, so the key decrypts |
| Affine.Affine.SolveKnownPair | src/cipher/monoalph/affine.rs:13-28 | the key becomes the solved pair |
| Affine.Encrypted | src/cipher/monoalph/affine.rs:32-44 | each letter given code point `(a * cp + b) mod n` in its own case (definition; see Affine.EncryptedLetters) |
| Affine.Decrypted | src/cipher/monoalph/affine.rs:45-59 | each letter given code point `(mmi * (cp - b)) mod n`; no result where the inverse of `a` is missing (definition; see Affine.DecryptPanics) |
| Affine.InverseSplit | src/cipher/monoalph/affine.rs:46-47 | an inverse `m` of `a` modulo `n` satisfies `m * a == 1 + n * t` for some `t` |
| Affine.AffineBack | src/cipher/monoalph/affine.rs:37-52 | decrypting an encrypted code point gives it back |
| Affine.AffineForth | src/cipher/monoalph/affine.rs:37-52 | encrypting a decrypted code point gives it back |
| Affine.KnownPair | src/cipher/monoalph/affine.rs:13-28 | the key `solve_known_pair` assigns, none where the inverse of `p0 - p1` is missing (definition; see Affine.KnownPairSolves) |
| Affine.PairSolved | src/cipher/monoalph/affine.rs:21-27 | with the inverse of the residue of `p0 - p1`, the solved key sends a known plaintext to its ciphertext |
| Affine.InverseOfDifference | src/cipher/monoalph/affine.rs:21-22 | the inverse of the residue of `p0 - p1` inverts `p0 - p1` itself modulo `n` |
| Affine.SolvedKey | src/cipher/monoalph/affine.rs:21-27 | the key built from an inverse of `p0 - p1` sends both known plaintexts to their ciphertexts |
| Affine.Units | src/cipher/monoalph/affine.rs:71-72 | the candidates `1..n` that have an inverse modulo `n`, in order (definition; see Affine.UnitsMembers) |
| Affine.UnitDrawn | src/cipher/monoalph/affine.rs:71-74 | the drawn candidate, or 1 when there is none (definition; see Affine.UnitDrawnInvertible) |
| SimpleSub.SubstitutedCps | src/cipher/monoalph/simple_sub.rs:18 | substituted code points stay in the alphabet |
| SimpleSub.SubstitutedLetters | src/cipher/monoalph/simple_sub.rs:13-25 | non-letters are copied; a letter keeps its case and gets the key's code point for its own |
| SimpleSub.SubstitutedBack | src/key/alphabet.rs:19-43 | substituting by a permutation and by its inverse undo each other |
| SimpleSub.RoundTrip | src/cipher/monoalph/simple_sub.rs:13-38 | with a permutation key and its inverse, decryption undoes encryption and encryption undoes decryption |
| SimpleSub.KeyRoundTrip | src/cipher/monoalph/simple_sub.rs:13-38 | a valid key alphabet's value and inverse give the round trip |
| SimpleSub.ResetKeyCollapses | src/cipher/monoalph/simple_sub.rs:47-49 | after `reset` every letter encrypts to code point 0 |
| SimpleSub.EmptyKeyIdentity | src/key/alphabet.rs:53-84 | an empty key gives the identity alphabet |
| SimpleSub.SimpleSubstitution.constructor | src/cipher/monoalph/simple_sub.rs:42-46 | a new cipher holds the identity key alphabet |
| SimpleSub.SimpleSubstitution.Reset | src/cipher/monoalph/simple_sub.rs:47-49 | the key alphabet becomes all zeros with its recomputed inverse |
| SimpleSub.SimpleSubstitution.Randomize | src/cipher/monoalph/simple_sub.rs:50-52 | the key alphabet is shuffled by the draws; a permutation stays one |
| SimpleSub.Fits | src/cipher/monoalph/simple_sub.rs:18 | a key that gives each code point of the alphabet a code point (definition; see SimpleSub.SubstitutedCps) |
| SimpleSub.Encrypted | src/cipher/monoalph/simple_sub.rs:13-25 | each letter given the key's code point in its own case, other characters copied (definition; see SimpleSub.SubstitutedLetters) |
| SimpleSub.Decrypted | src/cipher/monoalph/simple_sub.rs:26-38 | the same substitution with the key's inverse (definition; see SimpleSub.RoundTrip) |
| SimpleSub.PermutationFits | src/key/alphabet.rs:19-21 | a permutation and its inverse both fit an alphabet of their length |
| SimpleSub.MissingFromNothing | src/util/mod.rs:75-89 | with no key values the missing values of `0..n` are `0..n` in order |
| Baconian.Bit | src/cipher/monoalph/baconian.rs:15-16 | each digit is 0 or 1 |
| Baconian.Bits | src/cipher/monoalph/baconian.rs:14-18 | five binary digits per code point |
| Baconian.Encoded | src/cipher/monoalph/baconian.rs:9-19 | five digits for every letter, each 0 or 1 |
| Baconian.EncryptedSnoc | src/cipher/monoalph/baconian.rs:9-19 | each further letter of the message appends its five digit letters, any other character nothing |
| Baconian.PushDigits | src/cipher/monoalph/baconian.rs:14-18 | the inner loop appends the five digits of `cp` as letters |
| Baconian.Encrypt | src/cipher/monoalph/baconian.rs:7-21 | the loops compute `Encrypted` |
| Baconian.Small | src/cipher/monoalph/baconian.rs:30 | decryption reads only code points 0 and 1 |
| Baconian.PackedGroups | src/cipher/monoalph/baconian.rs:31-39 | every complete group of five digits is written as its big-endian value, and a trailing partial group is never written |
| Baconian.PackedGrows | src/cipher/monoalph/baconian.rs:31-39 | written code points are never taken back |
| Baconian.ReadDigit | src/cipher/monoalph/baconian.rs:32-38 | one digit read extends the packing, or fails on a completed group outside the alphabet |
| Baconian.FailureStays | src/cipher/monoalph/baconian.rs:31-39 | once a written code point is outside the alphabet, the rest of the message cannot mend it |
| Baconian.Decrypt | src/cipher/monoalph/baconian.rs:22-41 | the loop computes `Decrypted`, `None` exactly where `cp_to_upper` would panic |
| Baconian.PackedEncoded | src/cipher/monoalph/baconian.rs:14-38 | the digits of code points below 32 read back as those code points |
| Baconian.RoundTrip | src/cipher/monoalph/baconian.rs:7-41 | for 2 to 32 code points, decrypting an encryption gives the message's letters in uppercase, everything else dropped |
| Baconian.Codes | src/cipher/monoalph/baconian.rs:11-13 | the code points of the letters, one per letter, each inside the alphabet |
| Baconian.Encrypted | src/cipher/monoalph/baconian.rs:7-21 | five digit letters per letter of the message, other characters dropped (definition; see Baconian.EncryptedSnoc) |
| Baconian.Step | src/cipher/monoalph/baconian.rs:32-38 | one digit read: the value shifted in, written out once five digits are read (definition; see Baconian.ReadDigit) |
| Baconian.Packed | src/cipher/monoalph/baconian.rs:31-39 | the state after reading a run of digits (definition; see Baconian.PackedGroups) |
| Baconian.Decrypted | src/cipher/monoalph/baconian.rs:22-41 | the groups of five binary digits read as uppercase letters, none where a group is outside the alphabet (definition; see Baconian.Decrypt) |
| Baconian.Pack | src/cipher/monoalph/baconian.rs:32 | the big-endian value of a run of digits (definition; see Baconian.PackedGroups) |
| Baconian.PackedSnoc | src/cipher/monoalph/baconian.rs:31-39 | reading one more digit is one more step |
| Baconian.Grouped | src/cipher/monoalph/baconian.rs:31-39 | the state holds the complete groups packed and the value of the trailing partial group (definition; see Baconian.GroupStep) |
| Baconian.GroupStep | src/cipher/monoalph/baconian.rs:32-38 | reading one more digit keeps the state grouped |
| Baconian.GroupFull | src/cipher/monoalph/baconian.rs:34-38 | a fifth digit completes its group, which is written out, and the state stays grouped |
| Baconian.SmallSnoc | src/cipher/monoalph/baconian.rs:28-30 | one more character adds its code point to the digits read exactly when it is a letter below 2 |
| Baconian.Reading | src/cipher/monoalph/baconian.rs:24-39 | the loop's state after reading some digits: the value, the count and what has been written (definition; see Baconian.Decrypt) |
| Baconian.SmallAppend | src/cipher/monoalph/baconian.rs:30 | keeping the code points below 2 distributes over concatenation |
| Baconian.BitsAt | src/cipher/monoalph/baconian.rs:14-16 | the five digits of a code point are its bits, most significant first |
| Baconian.PackedBits | src/cipher/monoalph/baconian.rs:14-38 | reading the five digits of a code point after complete groups writes that code point out |
| Baconian.SmallAll | src/cipher/monoalph/baconian.rs:30 | digits that are all below 2 are all read |
| Morse.FindLetter | src/cipher/monoalph/morse.rs:22 | a position found is an entry of `LETTERS` |
| Morse.FindCode | src/cipher/monoalph/morse.rs:37 | a position found is an entry of `MORSE` |
| Morse.LetterSlot | src/cipher/monoalph/morse.rs:4-6 | the entry of each character of `LETTERS` worked out from its code |
| Morse.FindLetterSlot | src/cipher/monoalph/morse.rs:22 | the search finds the character's one entry, or nothing |
| Morse.CodeShape | src/cipher/monoalph/morse.rs:7-12 | the space's code is `/`, every other code is dots and dashes |
| Morse.SigOfCode | src/cipher/monoalph/morse.rs:7-12 | each code has its own number, from which its entry is read back |
| Morse.CodesDistinct | src/cipher/monoalph/morse.rs:7-12 | the `MORSE` entries are pairwise distinct |
| Morse.FindCodeOf | src/cipher/monoalph/morse.rs:37 | looking a code up finds its own entry |
| Morse.FindCodeNone | src/cipher/monoalph/morse.rs:37-38 | a string that is no code is not found and is dropped |
| Morse.Split | src/cipher/monoalph/morse.rs:32-36 | splitting yields at least one piece |
| Morse.JoinSplit | src/cipher/monoalph/morse.rs:32-36 | no piece holds the separator, and joining the pieces gives back the string |
| Morse.SplitJoin | src/cipher/monoalph/morse.rs:32-36 | pieces without the separator, joined by it, split back into themselves |
| Morse.TrimSpace | src/cipher/monoalph/morse.rs:28-50 | a space at either end does not change the trimmed string |
| Morse.Kept | src/cipher/monoalph/morse.rs:21 | only characters of `LETTERS` are kept |
| Morse.EncryptedJoin | src/cipher/monoalph/morse.rs:17-29 | encryption writes the codes of the lowercased message's `LETTERS` characters, separated by single spaces |
| Morse.DecodedCodes | src/cipher/monoalph/morse.rs:37-43 | decoding the codes of a word's letters gives the word |
| Morse.DecodedSpelled | src/cipher/monoalph/morse.rs:33-43 | a spelled word decodes back to the word |
| Morse.SplitSpelled | src/cipher/monoalph/morse.rs:32 | the slashes of a spelled message fall exactly between its words |
| Morse.DecodedSplit | src/cipher/monoalph/morse.rs:30-51 | decoding the pieces of a spelled message at its slashes gives its words |
| Morse.RoundTrip | src/cipher/monoalph/morse.rs:17-51 | decrypting an encryption gives the lowercased message's `LETTERS` characters, trimmed |
| Morse.Example | src/cipher/monoalph/morse.rs:59-74 | `morse code` encrypts to `-- --- .-. ... . / -.-. --- -.. .`, which decrypts back to it |
| Morse.Letter | src/cipher/monoalph/morse.rs:4-7 | the `k`-th entry of `LETTERS`: a space, `a` to `z`, `1` to `9`, then `0` (definition; see Morse.LetterSlot) |
| Morse.Code | src/cipher/monoalph/morse.rs:8-13 | the `k`-th entry of `MORSE` (definition; see Morse.CodeShape) |
| Morse.Slot | src/cipher/monoalph/morse.rs:22 | the entry of a character in `LETTERS`, worked out from its character code, is one of the 37 |
| Morse.Dotted | src/cipher/monoalph/morse.rs:8-13 | a code of dots and dashes only (definition; see Morse.CodeShape) |
| Morse.Sig | src/cipher/monoalph/morse.rs:37 | a number for each string of at most five characters, distinct on the codes (definition; see Morse.SigOfCode) |
| Morse.SigSlot | src/cipher/monoalph/morse.rs:37 | the entry whose code has a given number (definition; see Morse.SigOfCode) |
| Morse.EmptyNoCode | src/cipher/monoalph/morse.rs:37-38 | the empty string is no entry of `MORSE`, so an empty token is dropped |
| Morse.White | src/cipher/monoalph/morse.rs:28 | the whitespace characters `trim` removes (definition; see Morse.TrimSpace) |
| Morse.TrimStart | src/cipher/monoalph/morse.rs:28 | removing leading whitespace never lengthens a string |
| Morse.TrimEnd | src/cipher/monoalph/morse.rs:28 | removing trailing whitespace never lengthens a string |
| Morse.Trim | src/cipher/monoalph/morse.rs:28 | `trim`: whitespace removed at both ends (definition; see Morse.TrimExact) |
| Morse.JoinWith | src/cipher/monoalph/morse.rs:32-36 | pieces joined with the separator between them (definition; see Morse.JoinOfSplit) |
| Morse.LowerChar | src/cipher/monoalph/morse.rs:19 | the lowercase form of a character, ASCII letters only (definition; see Morse.ExampleLettered) |
| Morse.Lowered | src/cipher/monoalph/morse.rs:19 | `to_lowercase` keeps the length |
| Morse.Lettered | src/cipher/monoalph/morse.rs:21 | every character is in `LETTERS` (definition; see Morse.KeptAll) |
| Morse.CodeOf | src/cipher/monoalph/morse.rs:22 | the code of a character of `LETTERS` (definition; see Morse.CodeOfShape) |
| Morse.Spelled | src/cipher/monoalph/morse.rs:23-27 | the fold of `encrypt`: each code followed by a space (definition; see Morse.SpelledJoin) |
| Morse.Encrypted | src/cipher/monoalph/morse.rs:18-30 | `encrypt`: lowercased, kept characters, their codes joined by spaces (definition; see Morse.EncryptedJoin) |
| Morse.Replaced | src/cipher/monoalph/morse.rs:34 | `replace('_', "-")` keeps the length |
| Morse.Decoded | src/cipher/monoalph/morse.rs:36-43 | the letters of the tokens found in `MORSE`, in order; other tokens dropped (definition; see Morse.DecodedCodes) |
| Morse.DecodedWord | src/cipher/monoalph/morse.rs:33-44 | one word of `decrypt`: underscores to dashes, trimmed, split at spaces, decoded (definition; see Morse.DecodedSpelled) |
| Morse.DecodedWords | src/cipher/monoalph/morse.rs:32-44 | one decoded word per piece |
| Morse.Spaced | src/cipher/monoalph/morse.rs:45-49 | the outer fold of `decrypt`: each word followed by a space (definition; see Morse.SpacedJoin) |
| Morse.Decrypted | src/cipher/monoalph/morse.rs:31-52 | `decrypt`: the decoded words of the pieces between slashes, joined by spaces and trimmed (definition; see Morse.RoundTrip) |
| Morse.SplitAround | src/cipher/monoalph/morse.rs:32-36 | a separator splits the string into the pieces of its two sides |
| Morse.SplitWhole | src/cipher/monoalph/morse.rs:32-36 | a string without the separator is one piece |
| Morse.SplitSnoc | src/cipher/monoalph/morse.rs:32-36 | a character other than the separator joins the last piece |
| Morse.SplitCons | src/cipher/monoalph/morse.rs:32-36 | a character other than the separator starts the first piece |
| Morse.JoinOfSplit | src/cipher/monoalph/morse.rs:32-36 | joining the pieces of a split with the separator gives the string back |
| Morse.JoinCons | src/cipher/monoalph/morse.rs:45-49 | a piece in front of a non-empty list joins with one separator |
| Morse.SplitPieces | src/cipher/monoalph/morse.rs:32-36 | no piece of a split holds the separator, and each is made of the string's characters |
| Morse.TrimStartSpace | src/cipher/monoalph/morse.rs:28 | a leading space is trimmed away, and a trailing one stays unless everything is whitespace |
| Morse.TrimStartAllWhite | src/cipher/monoalph/morse.rs:28 | where leading whitespace swallows a string ending in a space, the whole string is whitespace |
| Morse.TrimExact | src/cipher/monoalph/morse.rs:28 | a string with no whitespace at its ends is its own trim |
| Morse.ReplacedSpace | src/cipher/monoalph/morse.rs:34 | replacing underscores commutes with a space at either end |
| Morse.DecodedWordSpace | src/cipher/monoalph/morse.rs:33-44 | a space at either end of a word does not change what it decodes to |
| Morse.Codes | src/cipher/monoalph/morse.rs:22 | one code per character |
| Morse.CodeOfShape | src/cipher/monoalph/morse.rs:22 | a space is coded `/`, every other character dots and dashes, and the code is found back at the character's entry |
| Morse.SpelledJoin | src/cipher/monoalph/morse.rs:23-27 | the fold writes the codes joined by spaces, followed by one space |
| Morse.CodeChars | src/cipher/monoalph/morse.rs:8-13 | no code holds whitespace or an underscore, and only the space's code holds a slash |
| Morse.SpelledTrimmed | src/cipher/monoalph/morse.rs:23-29 | trimming the fold drops the space after the last code |
| Morse.JoinTrimmed | src/cipher/monoalph/morse.rs:28 | pieces without whitespace at their ends, joined by spaces and then a space, trim to their join |
| Morse.JoinEnds | src/cipher/monoalph/morse.rs:28 | a join starts with its first piece's first character and ends with its last piece's last |
| Morse.CodesNonEmpty | src/cipher/monoalph/morse.rs:8-13 | no code is empty |
| Morse.Word | src/cipher/monoalph/morse.rs:32 | a word without spaces, whose codes are dots and dashes (definition; see Morse.WordsOf) |
| Morse.Words | src/cipher/monoalph/morse.rs:32 | every item is a word (definition; see Morse.WordsOf) |
| Morse.Spellings | src/cipher/monoalph/morse.rs:23-27 | one spelling per word |
| Morse.Pieces | src/cipher/monoalph/morse.rs:32 | the pieces of a spelled message at its slashes: the first spelling, then each next one after a space |
| Morse.JoinChars | src/cipher/monoalph/morse.rs:32-36 | a join holds only the separator and the pieces' characters |
| Morse.SpelledWordSpace | src/cipher/monoalph/morse.rs:23-27 | a word, a space and the rest spell as the word's codes, `/ `, then the rest's codes |
| Morse.PiecesCons | src/cipher/monoalph/morse.rs:32 | the pieces of several spellings are the first, then a space before the pieces of the rest |
| Morse.LetteredJoin | src/cipher/monoalph/morse.rs:21 | words of `LETTERS` joined by a space are still all `LETTERS` |
| Morse.SpelledAppend | src/cipher/monoalph/morse.rs:23-27 | spelling distributes over concatenation |
| Morse.SpelledSpace | src/cipher/monoalph/morse.rs:22-27 | a space is spelled `/ ` |
| Morse.SpelledNoSlash | src/cipher/monoalph/morse.rs:22-27 | a spelled word holds no slash |
| Morse.SpacedJoin | src/cipher/monoalph/morse.rs:45-49 | each word followed by a space is the words joined by spaces, then a space |
| Morse.WordsOf | src/cipher/monoalph/morse.rs:21-22 | the space-separated pieces of a message of `LETTERS` are words |
| Morse.DecodedPieces | src/cipher/monoalph/morse.rs:32-44 | decoding the pieces of spelled words gives the words back |
| Morse.DecodedTrailing | src/cipher/monoalph/morse.rs:32-44 | a space at the end of the last piece does not change the decoded words |
| Morse.KeptAll | src/cipher/monoalph/morse.rs:21 | a string of `LETTERS` passes the filter whole |
| Morse.CodeOfSlot | src/cipher/monoalph/morse.rs:22 | a character with an entry in `LETTERS` is found there and its code is that entry's |
| Morse.ExampleLettered | src/cipher/monoalph/morse.rs:61-65 | "morse code" is lowercase and all in `LETTERS`, each character's code being its entry's |
| Morse.ExampleCodes | src/cipher/monoalph/morse.rs:61-65 | the codes of "morse code" are `--`, `---`, `.-.`, `...`, `.`, `/`, `-.-.`, `---`, `-..`, `.` |
| Morse.ExampleFirstCodes | src/cipher/monoalph/morse.rs:61-65 | the codes of "morse" |
| Morse.ExampleLastCodes | src/cipher/monoalph/morse.rs:61-65 | the codes of " code" |
| Morse.JoinAppend | src/cipher/monoalph/morse.rs:23-27 | joining two non-empty lists puts the separator between their joins |
| Morse.ExampleHead | src/cipher/monoalph/morse.rs:65 | the codes of "morse" joined by spaces are `-- --- .-. ... .` |
| Morse.ExampleTail | src/cipher/monoalph/morse.rs:65 | the codes of " code" joined by spaces are `/ -.-. --- -.. .` |
| Morse.ExampleJoined | src/cipher/monoalph/morse.rs:65 | the example's codes joined by single spaces are `-- --- .-. ... . / -.-. --- -.. .` |
| AlphabetKey.IdentitySelfInverse | src/key/alphabet.rs:88-94 | the identity alphabet is its own inverse |
| AlphabetKey.KeyedFromString | src/key/alphabet.rs:53-68 | a string key gives a permutation of the code points |
| AlphabetKey.Alphabet.FromKey | src/key/alphabet.rs:71-79 | `new` with code points builds the keyed alphabet and its inverse, a valid key |
| AlphabetKey.Alphabet.FromString | src/key/alphabet.rs:53-62 | `new` with a string builds the alphabet keyed by its letters and its inverse |
| AlphabetKey.Alphabet.Identity | src/key/alphabet.rs:88-94 | `identity` has value and inverse both `0..n` |
| AlphabetKey.Alphabet.Set | src/key/alphabet.rs:80-84 | `set` with code points rebuilds value and inverse, a valid key |
| AlphabetKey.Alphabet.SetString | src/key/alphabet.rs:63-68 | `set` with a string rebuilds value and inverse from its letters |
| AlphabetKey.Alphabet.Reset | src/key/alphabet.rs:98-101 | `reset` leaves `n` zeros and their recomputed inverse |
| AlphabetKey.Alphabet.Randomize | src/key/alphabet.rs:105-108 | the value is shuffled, the inverse recomputed, and a valid key stays valid |
| AlphabetKey.EncryptDecrypt | src/key/alphabet.rs:19-43 | on a valid key decryption undoes encryption and encryption undoes decryption |
| AlphabetKey.ResetNotPermutation | src/key/alphabet.rs:98-101 | for two or more letters the reset value is not a permutation |
| AlphabetKey.MultisetInRange | src/key/alphabet.rs:105-108 | rearranging code points in range keeps them in range, so a shuffled key stays usable |
| AlphabetKey.Alphabet.Valid | src/key/alphabet.rs:19-21 | the value is a permutation of the code points and the inverse undoes it (definition; see AlphabetKey.Alphabet.Randomize) |
| AlphabetKey.Alphabet.Encrypt | src/key/alphabet.rs:30-32 | a letter is replaced by the alphabet's entry at its code point (definition; see AlphabetKey.EncryptDecrypt) |
| AlphabetKey.Alphabet.Decrypt | src/key/alphabet.rs:41-43 | a letter is replaced by the inverse's entry at its code point (definition; see AlphabetKey.EncryptDecrypt) |
| Keywords.Keyword.constructor | src/key/keyword.rs:47-49 | a new keyword is `[0]` |
| Keywords.Keyword.FromString | src/key/keyword.rs:25-29 | `create_from` holds the code points of the letters |
| Keywords.Keyword.SetKeyString | src/key/keyword.rs:33-35 | `set_key` with a string stores its letters' code points |
| Keywords.Keyword.SetKey | src/key/keyword.rs:38-40 | `set_key` with a vector stores an exact copy |
| Keywords.Keyword.Reset | src/key/keyword.rs:53-55 | `reset` gives `[0]` |
| Keywords.Keyword.Randomize | src/key/keyword.rs:56-60 | the keyword becomes the draws: 3 to 11 code points, each in the alphabet |
| Keywords.FromStringValid | src/key/keyword.rs:25-29 | a keyword from a string holds one valid code point per letter |
| Keywords.Keyword.Len | src/key/keyword.rs:11-13 | the number of code points of the keyword (definition; see Keywords.FromStringValid) |
| Keywords.Keyword.IsEmpty | src/key/keyword.rs:14-16 | the keyword is empty exactly when it has no code points (definition; see Keywords.Keyword.Reset) |
| Keywords.Keyword.At | src/key/keyword.rs:17-20 | the code point at an index inside the keyword; other indices are refused (definition; see ClassicVigenere.ClassicVigenere.Encrypt) |
| Numbers.DigitChar | src/key/number.rs:47 | a digit is shown as its decimal character |
| Numbers.NatStringValue | src/key/number.rs:47 | the decimal text of a natural number is non-empty digits that read back as it |
| Numbers.ParseDisplay | src/key/number.rs:34-40 | parsing the decimal text of any `i16` gives it back |
| Numbers.ParseRejects | src/key/number.rs:34-40 | empty text, a lone sign and a stray letter do not parse |
| Numbers.ParseOverflow | src/key/number.rs:34-40 | a value beyond the `i16` range does not parse |
| Numbers.ParseSigned | src/key/number.rs:34-40 | signed text is read with its sign |
| Numbers.Number.CheckVal | src/key/number.rs:41-50 | success exactly for a legal value, returned unchanged; otherwise the error naming the legal values and the argument |
| Numbers.Number.Parse | src/key/number.rs:34-40 | success exactly for `i16` text, with its value; otherwise the `An integer` error |
| Numbers.Number.Identity | src/key/number.rs:82-91 | `identity` has value 0 and legal values `0..cp_count` |
| Numbers.Number.Unchecked | src/key/number.rs:55-60 | the state `new` builds before checking: the argument, legal values `0..cp_count` |
| Numbers.Number.New | src/key/number.rs:54-65 | `new` succeeds exactly for an argument in `0..cp_count` and then holds it |
| Numbers.Number.NewStr | src/key/number.rs:72-75 | `new` with text fails on unparsable text, otherwise succeeds exactly for a legal number |
| Numbers.Number.Set | src/key/number.rs:66-69 | a legal value is stored; an illegal one is refused with the range error and the value kept |
| Numbers.Number.SetStr | src/key/number.rs:76-79 | text is parsed then set; either failure keeps the value |
| Numbers.Number.SetLegalValues | src/key/number.rs:29-32 | the legal values are replaced and described as `<integer: [..]>` |
| Numbers.Number.Reset | src/key/number.rs:94-96 | the value becomes the first legal value |
| Numbers.Number.Randomize | src/key/number.rs:100-102 | the value becomes the drawn legal value |
| Numbers.SetStrDisplay | src/key/number.rs:34-50 | a legal value's decimal text parses and checks back to it |
| Numbers.RangeMessageExample | src/key/number.rs:45-48 | the message for `0..3` is `Number should be in range [0, 1, 2]` |
| Numbers.IsDigit | src/key/number.rs:34-40 | a decimal digit character (definition; see Numbers.ParseDisplay) |
| Numbers.AllDigits | src/key/number.rs:34-40 | every character is a decimal digit (definition; see Numbers.ParseDisplay) |
| Numbers.NatString | src/key/number.rs:47 | the decimal digits of a natural number, most significant first (definition; see Numbers.NatStringValue) |
| Numbers.Display | src/key/number.rs:47 | the decimal text of an integer, with a minus sign when negative (definition; see Numbers.ParseDisplay) |
| Numbers.Joined | src/key/number.rs:31 | the values shown in decimal and separated by `, ` (definition; see Numbers.RangeMessageExample) |
| Numbers.DebugList | src/key/number.rs:31 | a vector shown between brackets (definition; see Numbers.Number.SetLegalValues) |
| Numbers.DigitsValue | src/key/number.rs:34-40 | the value of a string of decimal digits (definition; see Numbers.NatStringValue) |
| Numbers.ParseI16 | src/key/number.rs:34-40 | an optional sign, at least one digit and nothing else, with the value inside the `i16` range (definition; see Numbers.ParseDisplay) |
| Numbers.ParseUnsigned | src/key/number.rs:34-40 | unsigned digits within range parse as their value |
| Numbers.ParseNegative | src/key/number.rs:34-40 | a minus sign followed by digits within range parses as the negated value |
| Numbers.RangeMessage | src/key/number.rs:46 | the message naming the legal values (definition; see Numbers.RangeMessageExample) |
| Numbers.Number.Get | src/key/number.rs:19-21 | the stored value (definition; see Numbers.Number.Set) |
| ClassicVigSquares.ShiftMod | src/key/vigenere_square/classic_vig_square.rs:12-23 | row `r` of the tableau adds `r` mod 26 and its inverse subtracts it |
| ClassicVigSquares.ShiftUnshift | src/key/vigenere_square/classic_vig_square.rs:12-23 | a row and its inverse undo each other; the tableau is symmetric |
| ClassicVigSquares.ShiftRow | src/key/vigenere_square/classic_vig_square.rs:14-23 | a tableau row has 26 entries |
| ClassicVigSquares.ShiftRowPermutation | src/key/vigenere_square/classic_vig_square.rs:12-23 | every row of the tableau is a permutation of the alphabet |
| ClassicVigSquares.InitShiftRows | src/key/vigenere_square/classic_vig_square.rs:11-25 | the nested loops leave every row rotated by its number and the inverse table undoing it |
| ClassicVigSquares.ClassicVigSquare.constructor | src/key/vigenere_square/classic_vig_square.rs:39-47 | `new` gives two separate 26 by 26 tables holding the classic tableau |
| ClassicVigSquares.ClassicVigSquare.InitSquares | src/key/vigenere_square/classic_vig_square.rs:11-25 | `init_squares` leaves the classic tableau |
| ClassicVigSquares.ClassicLookups | src/key/vigenere_square/classic_vig_square.rs:27-32 | encryption adds the indices mod 26, decryption subtracts the key, and each undoes the other |
| ClassicVigSquares.Lookups | src/key/vigenere_square/classic_vig_square.rs:27-32 | the lookups of the initialised tables are the row functions |
| ClassicVigSquares.Shift | src/key/vigenere_square/classic_vig_square.rs:12-23 | row `r` of the classic tableau at position `i` (definition; see ClassicVigSquares.ShiftMod) |
| ClassicVigSquares.Unshift | src/key/vigenere_square/classic_vig_square.rs:12-23 | the position of a code point in row `r` (definition; see ClassicVigSquares.ShiftUnshift) |
| ClassicVigSquares.Shaped | src/key/vigenere_square/classic_vig_square.rs:39-47 | both tables are 26 by 26 and are separate arrays (definition; see ClassicVigSquares.ClassicVigSquare.constructor) |
| ClassicVigSquares.ShiftRowsUpTo | src/key/vigenere_square/classic_vig_square.rs:12-23 | the first rows hold the rotated alphabets and their inverses (definition; see ClassicVigSquares.InitShiftRows) |
| ClassicVigSquares.ClassicVigSquare.Valid | src/key/vigenere_square/classic_vig_square.rs:5-8 | the two tables have the tableau's shape (definition; see ClassicVigSquares.ClassicVigSquare.constructor) |
| ClassicVigSquares.ClassicVigSquare.Initialised | src/key/vigenere_square/classic_vig_square.rs:11-25 | the tables hold the classic tableau (definition; see ClassicVigSquares.ClassicVigSquare.InitSquares) |
| ClassicVigSquares.ClassicVigSquare.Encrypt | src/key/vigenere_square/classic_vig_square.rs:27-29 | the tableau entry at row `x`, column `y` (definition; see ClassicVigSquares.ClassicLookups) |
| ClassicVigSquares.ClassicVigSquare.Decrypt | src/key/vigenere_square/classic_vig_square.rs:30-32 | the inverse table's entry at row `x`, column `y` (definition; see ClassicVigSquares.ClassicLookups) |
| KeyedVigSquares.FillKeyedRow | src/key/vigenere_square/keyed_vig_square.rs:61-71 | one row becomes the mixed alphabet rotated by its number with its inverse; other rows are unchanged |
| KeyedVigSquares.FillKeyedRows | src/key/vigenere_square/keyed_vig_square.rs:60-72 | every row becomes the mixed alphabet rotated by its number, with the inverse of each |
| KeyedVigSquares.ClassicIsKeyedByIdentity | src/key/vigenere_square/keyed_vig_square.rs:13-27 | `init_squares` builds the keyed tableau over the plain alphabet |
| KeyedVigSquares.DrawnAlphabet | src/key/vigenere_square/keyed_vig_square.rs:57-59 | the shuffled consecutive alphabet is a permutation of 26 code points |
| KeyedVigSquares.KeyedVigSquare.constructor | src/key/vigenere_square/keyed_vig_square.rs:41-49 | `new` gives two separate tables holding the tableau over the plain alphabet |
| KeyedVigSquares.KeyedVigSquare.InitSquares | src/key/vigenere_square/keyed_vig_square.rs:13-27 | `init_squares` and `reset` leave the classic tableau |
| KeyedVigSquares.KeyedVigSquare.Randomize | src/key/vigenere_square/keyed_vig_square.rs:56-73 | `randomize` leaves the tableau keyed by the drawn alphabet |
| KeyedVigSquares.KeyedLookups | src/key/vigenere_square/keyed_vig_square.rs:29-34 | entries are code points, the inverse finds each entry in its row, and decryption under the key undoes encryption |
| KeyedVigSquares.KeyedRowsUpTo | src/key/vigenere_square/keyed_vig_square.rs:60-72 | the first rows hold the mixed alphabet rotated by their number, and the inverse finds each entry's position (definition; see KeyedVigSquares.FillKeyedRows) |
| KeyedVigSquares.KeyedVigSquare.Valid | src/key/vigenere_square/keyed_vig_square.rs:41-49 | the tables have the tableau's shape and the mixed alphabet is a permutation (definition; see KeyedVigSquares.KeyedVigSquare.constructor) |
| KeyedVigSquares.KeyedVigSquare.Keyed | src/key/vigenere_square/keyed_vig_square.rs:56-73 | the tables hold the tableau keyed by the mixed alphabet (definition; see KeyedVigSquares.KeyedVigSquare.Randomize) |
| KeyedVigSquares.KeyedVigSquare.Encrypt | src/key/vigenere_square/keyed_vig_square.rs:29-31 | the tableau entry at row `x`, column `y` (definition; see KeyedVigSquares.KeyedLookups) |
| KeyedVigSquares.KeyedVigSquare.Decrypt | src/key/vigenere_square/keyed_vig_square.rs:32-34 | the inverse table's entry at row `x`, column `y` (definition; see KeyedVigSquares.KeyedLookups) |
| PortaSquares.PortaCell | src/key/vigenere_square/porta_square.rs:11-29 | an entry of the first thirteen rows is a code point |
| PortaSquares.PortaCellMod | src/key/vigenere_square/porta_square.rs:11-29 | a row sends the first half to `13 + (r + i) mod 13` and the second to `(i - 13 - r) mod 13` |
| PortaSquares.PortaCellInvolution | src/key/vigenere_square/porta_square.rs:11-29 | each row swaps the two halves and is its own inverse |
| PortaSquares.PortaRow | src/key/vigenere_square/porta_square.rs:11-29 | a row has 26 entries |
| PortaSquares.PortaRowPermutation | src/key/vigenere_square/porta_square.rs:11-29 | every row is a permutation of the alphabet |
| PortaSquares.PortaSquare.constructor | src/key/vigenere_square/porta_square.rs:44-50 | `new` gives the Porta rows above and zero rows below |
| PortaSquares.PortaSquare.InitSquares | src/key/vigenere_square/porta_square.rs:10-30 | `init_squares` writes the thirteen Porta rows and leaves the rest alone |
| PortaSquares.PortaSquare.FillRow | src/key/vigenere_square/porta_square.rs:12-28 | the four loops of one row write that Porta row; other rows are unchanged |
| PortaSquares.PortaSquare.Decrypt | src/key/vigenere_square/porta_square.rs:35-37 | decryption is the same lookup as encryption |
| PortaSquares.PortaLookups | src/key/vigenere_square/porta_square.rs:32-37 | in a row below 13 the lookup swaps halves and undoes itself; rows from 13 read zero |
| PortaSquares.PortaRowsUpTo | src/key/vigenere_square/porta_square.rs:11-29 | the first rows hold the Porta rows and the rows from 13 on are zero (definition; see PortaSquares.PortaSquare.InitSquares) |
| PortaSquares.LowerRowsZero | src/key/vigenere_square/porta_square.rs:44-50 | the rows from 13 on, which `init_squares` never writes, are zero (definition; see PortaSquares.PortaSquare.constructor) |
| PortaSquares.PortaSquare.Valid | src/key/vigenere_square/porta_square.rs:44-50 | the table is 26 by 26 (definition; see PortaSquares.PortaSquare.constructor) |
| PortaSquares.PortaSquare.Initialised | src/key/vigenere_square/porta_square.rs:10-30 | the table holds the Porta tableau in rows 0 to 12 and zeros below (definition; see PortaSquares.PortaSquare.InitSquares) |
| PortaSquares.PortaSquare.Encrypt | src/key/vigenere_square/porta_square.rs:32-34 | the tableau entry at row `x`, column `y` (definition; see PortaSquares.PortaLookups) |
| BellasoSquares.BellasoCell | src/key/vigenere_square/bellaso_square.rs:11-29 | an entry of the first thirteen rows is a code point |
| BellasoSquares.BellasoCellMod | src/key/vigenere_square/bellaso_square.rs:11-29 | a row sends the first half to `13 + (i - r) mod 13` and the second to `(i - 13 + r) mod 13` |
| BellasoSquares.Cell | src/key/vigenere_square/bellaso_square.rs:30-34 | every entry, mirrored rows included, is a code point |
| BellasoSquares.BellasoCellInvolution | src/key/vigenere_square/bellaso_square.rs:11-29 | each of the first thirteen rows swaps the halves and is its own inverse |
| BellasoSquares.MirrorCellInvolution | src/key/vigenere_square/bellaso_square.rs:30-34 | a mirrored row keeps each half in place and is its own inverse |
| BellasoSquares.BellasoRow | src/key/vigenere_square/bellaso_square.rs:10-35 | a row has 26 entries |
| BellasoSquares.BellasoRowPermutation | src/key/vigenere_square/bellaso_square.rs:10-35 | every row is a permutation of the alphabet |
| BellasoSquares.BellasoSquare.constructor | src/key/vigenere_square/bellaso_square.rs:49-55 | `new` gives the whole Bellaso tableau |
| BellasoSquares.BellasoSquare.InitSquares | src/key/vigenere_square/bellaso_square.rs:10-35 | `init_squares` writes the first thirteen rows and then their mirror images |
| BellasoSquares.BellasoSquare.FillRow | src/key/vigenere_square/bellaso_square.rs:12-28 | the four loops of one row write that Bellaso row; other rows are unchanged |
| BellasoSquares.BellasoSquare.Decrypt | src/key/vigenere_square/bellaso_square.rs:40-42 | decryption is the same lookup as encryption |
| BellasoSquares.BellasoLookups | src/key/vigenere_square/bellaso_square.rs:37-42 | entries are code points, rows from 13 mirror the first thirteen, those swap halves, and a lookup undoes itself |
| BellasoSquares.BellasoRowsUpTo | src/key/vigenere_square/bellaso_square.rs:11-29 | the first rows hold the tableau's first thirteen rows (definition; see BellasoSquares.BellasoSquare.InitSquares) |
| BellasoSquares.BellasoSquare.Valid | src/key/vigenere_square/bellaso_square.rs:49-55 | the table is 26 by 26 (definition; see BellasoSquares.BellasoSquare.constructor) |
| BellasoSquares.BellasoSquare.Initialised | src/key/vigenere_square/bellaso_square.rs:10-35 | the table holds the whole Bellaso tableau, mirrored rows included (definition; see BellasoSquares.BellasoSquare.InitSquares) |
| BellasoSquares.BellasoSquare.Encrypt | src/key/vigenere_square/bellaso_square.rs:37-39 | the tableau entry at row `x`, column `y` (definition; see BellasoSquares.BellasoLookups) |
| Rotors.Index | src/key/enigma/rotor.rs:20-31 | the discriminant of a wiring type is below 10 |
| Rotors.IndexInjective | src/key/enigma/rotor.rs:20-31 | distinct wiring types have distinct discriminants |
| Rotors.FromDraw | src/key/enigma/rotor.rs:35-46 | a draw below 8 selects the type with that discriminant; Beta and Gamma are never drawn |
| Rotors.WiringIInverse | src/key/enigma/rotor.rs:50-74 | row I of `INV_WIRINGS` and of `WIRINGS` are substitutions of the 26 letters that undo each other |
| Rotors.WiringIIInverse | src/key/enigma/rotor.rs:50-74 | row II of `INV_WIRINGS` and of `WIRINGS` are substitutions of the 26 letters that undo each other |
| Rotors.WiringIIIInverse | src/key/enigma/rotor.rs:50-74 | row III of `INV_WIRINGS` and of `WIRINGS` are substitutions of the 26 letters that undo each other |
| Rotors.WiringIVInverse | src/key/enigma/rotor.rs:50-74 | row IV of `INV_WIRINGS` and of `WIRINGS` are substitutions of the 26 letters that undo each other |
| Rotors.WiringVInverse | src/key/enigma/rotor.rs:50-74 | row V of `INV_WIRINGS` and of `WIRINGS` are substitutions of the 26 letters that undo each other |
| Rotors.WiringVIInverse | src/key/enigma/rotor.rs:50-74 | row VI of `INV_WIRINGS` and of `WIRINGS` are substitutions of the 26 letters that undo each other |
| Rotors.WiringVIIInverse | src/key/enigma/rotor.rs:50-74 | row VII of `INV_WIRINGS` and of `WIRINGS` are substitutions of the 26 letters that undo each other |
| Rotors.WiringVIIIInverse | src/key/enigma/rotor.rs:50-74 | row VIII of `INV_WIRINGS` and of `WIRINGS` are substitutions of the 26 letters that undo each other |
| Rotors.WiringBetaInverse | src/key/enigma/rotor.rs:50-74 | row Beta of `INV_WIRINGS` and of `WIRINGS` are substitutions of the 26 letters that undo each other |
| Rotors.WiringGammaInverse | src/key/enigma/rotor.rs:50-74 | row Gamma of `INV_WIRINGS` and of `WIRINGS` are substitutions of the 26 letters that undo each other |
| Rotors.TablesInverse | src/key/enigma/rotor.rs:50-74 | for every type the inverse table undoes the forward table |
| Rotors.ModuloCancel | src/key/enigma/rotor.rs:114-120 | the shift by the offset and back cancels mod 26 |
| Rotors.Wiring | src/key/enigma/rotor.rs:118 | a table entry is a letter |
| Rotors.WiringRoundTrip | src/key/enigma/rotor.rs:118-120 | looking up in one table and then the other gives the position back |
| Rotors.Through | src/key/enigma/rotor.rs:113-121 | a pass through the rotor gives a letter |
| Rotors.ThroughRoundTrip | src/key/enigma/rotor.rs:113-121 | at the same settings the backward pass undoes the forward pass and the reverse |
| Rotors.ThroughInjective | src/key/enigma/rotor.rs:113-121 | at fixed settings a pass sends distinct letters to distinct letters |
| Rotors.NotchProps | src/key/enigma/rotor.rs:75-86 | Beta and Gamma never turn their neighbour; I to VIII each have a notch among the letters |
| Rotors.SteppedProps | src/key/enigma/rotor.rs:132-134 | `k` steps advance the outer position by `k` mod 26; 26 steps bring it back |
| Rotors.TypeOfNameIff | src/key/enigma/rotor.rs:165-175 | a name selects a type exactly when it is that type's full or short name |
| Rotors.ParseRotorType | src/key/enigma/rotor.rs:164-184 | text selects a type exactly when its lower case is a name of one; otherwise the error lists the choices and echoes the text |
| Rotors.ParseNames | src/key/enigma/rotor.rs:164-184 | every name, in any case, selects its type |
| Rotors.ParseUpperExample | src/key/enigma/rotor.rs:165-173 | "VIII" selects rotor VIII |
| Rotors.ParseRefusedExample | src/key/enigma/rotor.rs:176-181 | "ix" is refused, echoed in the error |
| Rotors.Rotor.constructor | src/key/enigma/rotor.rs:145-152 | `new` with a type has that type and positions 0 |
| Rotors.Rotor.Clone | src/key/enigma/rotor.rs:90 | a clone is a fresh rotor in the same state |
| Rotors.Rotor.FromString | src/key/enigma/rotor.rs:159-163 | `new` with text fails as parsing fails, otherwise gives a fresh rotor of the parsed type at positions 0 |
| Rotors.Rotor.Input | src/key/enigma/rotor.rs:113-121 | `input` gives a letter, and the opposite pass sends it back to the input letter |
| Rotors.Rotor.Step | src/key/enigma/rotor.rs:132-134 | `step` advances the outer position one place mod 26 and changes nothing else |
| Rotors.Rotor.ResetPositions | src/key/enigma/rotor.rs:138-141 | both positions become 0; the type is kept |
| Rotors.Rotor.SetType | src/key/enigma/rotor.rs:153-156 | the type changes, the positions are kept |
| Rotors.Rotor.Set | src/key/enigma/rotor.rs:164-184 | a known name changes the type; other text fails and changes nothing; positions are kept |
| Rotors.Rotor.Reset | src/key/enigma/rotor.rs:188-191 | `reset` gives rotor I at positions 0 |
| Rotors.Rotor.Randomize | src/key/enigma/rotor.rs:211-216 | the type is one of I to VIII from the draw, the positions the two draws |
| Rotors.WiringAt | src/key/enigma/rotor.rs:50-62 | the row of `WIRINGS` a wiring type selects (definition; see Rotors.TablesInverse) |
| Rotors.InvWiringAt | src/key/enigma/rotor.rs:63-74 | the row of `INV_WIRINGS` a wiring type selects (definition; see Rotors.TablesInverse) |
| Rotors.WiringI | src/key/enigma/rotor.rs:51 | row I of `WIRINGS` (definition; see Rotors.WiringIInverse) |
| Rotors.WiringII | src/key/enigma/rotor.rs:52 | row II of `WIRINGS` (definition; see Rotors.WiringIIInverse) |
| Rotors.WiringIII | src/key/enigma/rotor.rs:53 | row III of `WIRINGS` (definition; see Rotors.WiringIIIInverse) |
| Rotors.WiringIV | src/key/enigma/rotor.rs:54 | row IV of `WIRINGS` (definition; see Rotors.WiringIVInverse) |
| Rotors.WiringV | src/key/enigma/rotor.rs:55 | row V of `WIRINGS` (definition; see Rotors.WiringVInverse) |
| Rotors.WiringVI | src/key/enigma/rotor.rs:56 | row VI of `WIRINGS` (definition; see Rotors.WiringVIInverse) |
| Rotors.WiringVII | src/key/enigma/rotor.rs:57 | row VII of `WIRINGS` (definition; see Rotors.WiringVIIInverse) |
| Rotors.WiringVIII | src/key/enigma/rotor.rs:58 | row VIII of `WIRINGS` (definition; see Rotors.WiringVIIIInverse) |
| Rotors.WiringBeta | src/key/enigma/rotor.rs:59 | row Beta of `WIRINGS` (definition; see Rotors.WiringBetaInverse) |
| Rotors.WiringGamma | src/key/enigma/rotor.rs:60 | row Gamma of `WIRINGS` (definition; see Rotors.WiringGammaInverse) |
| Rotors.InvWiringI | src/key/enigma/rotor.rs:64 | row I of `INV_WIRINGS` (definition; see Rotors.WiringIInverse) |
| Rotors.InvWiringII | src/key/enigma/rotor.rs:65 | row II of `INV_WIRINGS` (definition; see Rotors.WiringIIInverse) |
| Rotors.InvWiringIII | src/key/enigma/rotor.rs:66 | row III of `INV_WIRINGS` (definition; see Rotors.WiringIIIInverse) |
| Rotors.InvWiringIV | src/key/enigma/rotor.rs:67 | row IV of `INV_WIRINGS` (definition; see Rotors.WiringIVInverse) |
| Rotors.InvWiringV | src/key/enigma/rotor.rs:68 | row V of `INV_WIRINGS` (definition; see Rotors.WiringVInverse) |
| Rotors.InvWiringVI | src/key/enigma/rotor.rs:69 | row VI of `INV_WIRINGS` (definition; see Rotors.WiringVIInverse) |
| Rotors.InvWiringVII | src/key/enigma/rotor.rs:70 | row VII of `INV_WIRINGS` (definition; see Rotors.WiringVIIInverse) |
| Rotors.InvWiringVIII | src/key/enigma/rotor.rs:71 | row VIII of `INV_WIRINGS` (definition; see Rotors.WiringVIIIInverse) |
| Rotors.InvWiringBeta | src/key/enigma/rotor.rs:72 | row Beta of `INV_WIRINGS` (definition; see Rotors.WiringBetaInverse) |
| Rotors.InvWiringGamma | src/key/enigma/rotor.rs:73 | row Gamma of `INV_WIRINGS` (definition; see Rotors.WiringGammaInverse) |
| Rotors.NotchesOf | src/key/enigma/rotor.rs:75-86 | the row of `NOTCHES` a wiring type selects, -1 for Beta and Gamma (definition; see Rotors.NotchProps) |
| Rotors.TablesInverseAt | src/key/enigma/rotor.rs:50-74 | the two tables of a type undo each other on every letter (definition; see Rotors.TablesInverse) |
| Rotors.OnNotch | src/key/enigma/rotor.rs:126-128 | `is_on_notch`: the outer position is one of the type's notches (definition; see Rotors.NotchProps) |
| Rotors.Stepped | src/key/enigma/rotor.rs:132-134 | the outer position after `k` calls of `step` (definition; see Rotors.SteppedProps) |
| Rotors.TypeOfName | src/key/enigma/rotor.rs:165-175 | the lower-cased names `set` matches (definition; see Rotors.TypeOfNameIff) |
| Rotors.Name | src/key/enigma/rotor.rs:165-175 | the full lower-case name of each type (definition; see Rotors.TypeOfNameIff) |
| Rotors.ShortName | src/key/enigma/rotor.rs:173-174 | "b" and "g" for Beta and Gamma, the full name otherwise (definition; see Rotors.TypeOfNameIff) |
| Rotors.Rotor.IsOnNotch | src/key/enigma/rotor.rs:126-128 | `is_on_notch` on the rotor's type and position (definition; see Rotors.NotchProps) |
| Reflectors.Index | src/key/enigma/reflector.rs:13-19 | the discriminant of a reflector type is below 5 |
| Reflectors.FromIndex | src/key/enigma/reflector.rs:21-31 | 0 to 4 select the type with that discriminant, anything larger C thin |
| Reflectors.FromIndexRoundTrip | src/key/enigma/reflector.rs:13-31 | converting a discriminant back gives its type |
| Reflectors.WiringAReciprocal | src/key/enigma/reflector.rs:34-40 | row A of `WIRINGS` pairs the 26 letters off: no letter to itself, and back again |
| Reflectors.WiringBReciprocal | src/key/enigma/reflector.rs:34-40 | row B of `WIRINGS` pairs the 26 letters off: no letter to itself, and back again |
| Reflectors.WiringCReciprocal | src/key/enigma/reflector.rs:34-40 | row C of `WIRINGS` pairs the 26 letters off: no letter to itself, and back again |
| Reflectors.WiringBThinReciprocal | src/key/enigma/reflector.rs:34-40 | row BThin of `WIRINGS` pairs the 26 letters off: no letter to itself, and back again |
| Reflectors.WiringCThinReciprocal | src/key/enigma/reflector.rs:34-40 | row CThin of `WIRINGS` pairs the 26 letters off: no letter to itself, and back again |
| Reflectors.TablesReciprocal | src/key/enigma/reflector.rs:34-40 | every reflector pairs the letters off |
| Reflectors.Reflect | src/key/enigma/reflector.rs:59-61 | a reflected letter is another letter that the wiring sends back |
| Reflectors.ReflectTwice | src/key/enigma/reflector.rs:59-61 | reflecting twice gives the letter back |
| Reflectors.TypeOfNameIff | src/key/enigma/reflector.rs:83-103 | a name selects a type exactly when it is that type's name |
| Reflectors.ParseReflectorType | src/key/enigma/reflector.rs:82-109 | text selects a type exactly when its lower case is a name; otherwise the error lists the choices and echoes the text |
| Reflectors.ParseNames | src/key/enigma/reflector.rs:82-109 | every name, in any case, selects its reflector |
| Reflectors.ParseExamples | src/key/enigma/reflector.rs:96-107 | "BThin" selects B thin, and the display name "B thin" is refused |
| Reflectors.Reflector.constructor | src/key/enigma/reflector.rs:65-70 | `new` with a type has that type |
| Reflectors.Reflector.Clone | src/key/enigma/reflector.rs:44 | a clone is a fresh reflector of the same type |
| Reflectors.Reflector.FromString | src/key/enigma/reflector.rs:77-81 | `new` with text fails as parsing fails, otherwise gives a fresh reflector of the parsed type |
| Reflectors.Reflector.Input | src/key/enigma/reflector.rs:59-61 | `input` sends a letter to a different letter |
| Reflectors.Reflector.SetType | src/key/enigma/reflector.rs:71-74 | the type changes |
| Reflectors.Reflector.Set | src/key/enigma/reflector.rs:82-109 | a known name changes the type; other text fails and changes nothing |
| Reflectors.Reflector.Reset | src/key/enigma/reflector.rs:113-115 | `reset` gives reflector B |
| Reflectors.Reflector.Randomize | src/key/enigma/reflector.rs:126-128 | the type is the one the draw selects, with the draw as its discriminant |
| Reflectors.WiringAt | src/key/enigma/reflector.rs:34-40 | the row of `WIRINGS` a reflector type selects (definition; see Reflectors.TablesReciprocal) |
| Reflectors.WiringA | src/key/enigma/reflector.rs:35 | row A of `WIRINGS` (definition; see Reflectors.WiringAReciprocal) |
| Reflectors.WiringB | src/key/enigma/reflector.rs:36 | row B of `WIRINGS` (definition; see Reflectors.WiringBReciprocal) |
| Reflectors.WiringC | src/key/enigma/reflector.rs:37 | row C of `WIRINGS` (definition; see Reflectors.WiringCReciprocal) |
| Reflectors.WiringBThin | src/key/enigma/reflector.rs:38 | row BThin of `WIRINGS` (definition; see Reflectors.WiringBThinReciprocal) |
| Reflectors.WiringCThin | src/key/enigma/reflector.rs:39 | row CThin of `WIRINGS` (definition; see Reflectors.WiringCThinReciprocal) |
| Reflectors.Reciprocal | src/key/enigma/reflector.rs:34-40 | a row swaps the 26 letters in pairs (definition; see Reflectors.TablesReciprocal) |
| Reflectors.Name | src/key/enigma/reflector.rs:83-103 | the lower-case name of each type (definition; see Reflectors.TypeOfNameIff) |
| Reflectors.TypeOfName | src/key/enigma/reflector.rs:83-103 | the lower-cased names `set` matches (definition; see Reflectors.TypeOfNameIff) |
| Enigmas.SteppedRotors | src/cipher/electromechanical/enigma.rs:35-45 | stepping keeps the number of rotors |
| Enigmas.SteppedRotorsProps | src/cipher/electromechanical/enigma.rs:35-45 | rotor 0 always steps, rotor 1 exactly when it or rotor 0 is on its notch, rotor 2 exactly when rotor 1 is, and no other rotor moves |
| Enigmas.DoubleStep | src/cipher/electromechanical/enigma.rs:38-44 | when rotor 0 turns rotor 1 onto its notch, rotor 1 steps again at the next letter and takes rotor 2 with it |
| Enigmas.DoubleStepExample | src/cipher/electromechanical/enigma.rs:35-45 | rotors III, II, I at U, D, A go to V D A, then W E A, then X F B |
| Enigmas.StepsN | src/cipher/electromechanical/enigma.rs:21 | stepping any number of times keeps the number of rotors |
| Enigmas.RotorInput | src/cipher/electromechanical/enigma.rs:56 | a rotor's pass gives a letter |
| Enigmas.Forward | src/cipher/electromechanical/enigma.rs:47-60 | the forward pass gives a letter |
| Enigmas.Backward | src/cipher/electromechanical/enigma.rs:47-60 | the reverse pass gives a letter |
| Enigmas.PassRoundTrip | src/cipher/electromechanical/enigma.rs:47-60 | at one state the reverse pass undoes the forward pass and the other way round |
| Enigmas.BackwardSnoc | src/cipher/electromechanical/enigma.rs:50-57 | the reverse pass meets the last rotor first |
| Enigmas.Encipher | src/cipher/electromechanical/enigma.rs:22-26 | one letter through plugboard, rotors, reflector, rotors and plugboard stays a letter |
| Enigmas.EncipherInvolution | src/cipher/electromechanical/enigma.rs:22-26 | at any one state enciphering undoes itself and never gives the letter itself |
| Enigmas.RunCps | src/cipher/electromechanical/enigma.rs:16-33 | the enciphered code points are one letter each |
| Enigmas.RunCpsAt | src/cipher/electromechanical/enigma.rs:19-27 | letter `k` is enciphered at the state after `k + 1` steps |
| Enigmas.RunCpsTwice | src/cipher/electromechanical/enigma.rs:16-33 | running the output again from the same state gives the message back, and no letter stays the same |
| Enigmas.RanTwice | src/cipher/electromechanical/enigma.rs:63-68 | `run` is its own inverse from the same starting state |
| Enigmas.StatesOf | src/cipher/electromechanical/enigma.rs:11 | the states list each rotor's state in order |
| Enigmas.Enigma.constructor | src/cipher/electromechanical/enigma.rs:71-81 | `new` gives an unplugged plugboard, rotors I, II, III at 0 and reflector B |
| Enigmas.Enigma.From | src/cipher/electromechanical/enigma.rs:8-13 | a machine holds the parts it is built from |
| Enigmas.Enigma.Clone | src/cipher/electromechanical/enigma.rs:7 | a clone owns fresh copies of every part in the same state |
| Enigmas.Enigma.StepRotors | src/cipher/electromechanical/enigma.rs:35-45 | `step_rotors` leaves the rotor states stepped as the double-stepping rule says |
| Enigmas.Enigma.PassStep | src/cipher/electromechanical/enigma.rs:51-56 | one turn of `rotor_pass`'s loop keeps the rest of the pass equal to the whole |
| Enigmas.Enigma.RotorPass | src/cipher/electromechanical/enigma.rs:47-60 | `rotor_pass` is the forward or reverse pass through the rotors |
| Enigmas.Enigma.EncipherNext | src/cipher/electromechanical/enigma.rs:19-27 | one letter steps the rotors and is enciphered at the new state |
| Enigmas.Enigma.RunStep | src/cipher/electromechanical/enigma.rs:18-30 | one character of the loop extends the output and keeps the rotors stepped once per letter so far |
| Enigmas.Enigma.RunMut | src/cipher/electromechanical/enigma.rs:16-33 | `run_mut` gives the enciphered message and leaves the rotors stepped once per letter |
| Enigmas.Enigma.Run | src/cipher/electromechanical/enigma.rs:63-68 | `run` gives the enciphered message from the current state and changes nothing |
| Enigmas.Enigma.Reset | src/cipher/electromechanical/enigma.rs:82-86 | `reset` unplugs the plugboard, sets every rotor to I at 0 and the reflector to B |
| Enigmas.Enigma.Randomize | src/cipher/electromechanical/enigma.rs:87-93 | the plugboard, every rotor and the reflector take their draws |
| Enigmas.Turned | src/cipher/electromechanical/enigma.rs:39-44 | a rotor after `step` (definition; see Enigmas.SteppedRotorsProps) |
| Enigmas.AtNotch | src/cipher/electromechanical/enigma.rs:38-41 | a rotor's `is_on_notch` (definition; see Enigmas.DoubleStep) |
| Enigmas.Ran | src/cipher/electromechanical/enigma.rs:16-33 | `run_mut` from a machine state: letters get the enciphered code point, the rest is copied (definition; see Enigmas.RanTwice) |
| Enigmas.StateOf | src/cipher/electromechanical/enigma.rs:11 | what a rotor object contributes to the machine (definition; see Enigmas.StatesOf) |
| Enigmas.Enigma.Valid | src/cipher/electromechanical/enigma.rs:36 | at least three rotors, as `step_rotors` asserts, no rotor shared, and an involutive plugboard (definition; required by Enigmas.Enigma.RunMut) |
| Matrices.Zeros | src/key/matrix.rs:99 | `vec![vec![0; n]; n]` is an `n` by `n` matrix |
| Matrices.IdentityMatrix | src/key/matrix.rs:322-325 | the matrix `reset` writes is `n` by `n` |
| Matrices.AreaFlat | src/key/matrix.rs:210 | the index `i * n + j` of a row-major list |
| Matrices.RowMajor | src/key/matrix.rs:283-291 | a vector of `n * n` entries fills an `n` by `n` matrix |
| Matrices.FlattenedRows | src/key/matrix.rs:303-309 | `to_string` writes the rows one after the other |
| Matrices.FlattenedRowMajor | src/key/matrix.rs:283-291 | flattening the matrix filled from a vector gives the vector back |
| Matrices.RowMajorFlattened | src/key/matrix.rs:283-291 | filling a matrix from its own flattening gives the matrix back |
| Matrices.Adjugate | src/key/matrix.rs:105-197 | the adjugate is `n` by `n` |
| Matrices.AdjugateProduct2 | src/key/matrix.rs:105-110 | a 2x2 matrix times its adjugate, either way round, is its determinant times the identity |
| Matrices.Adjugate3Entries | src/key/matrix.rs:115-197 | the 3x3 adjugate's entries are the signed 2x2 minors `invert` lists |
| Matrices.AdjugateProduct3 | src/key/matrix.rs:115-197 | a 3x3 matrix times its adjugate, either way round, is its determinant times the identity |
| Matrices.AdjugateProduct | src/key/matrix.rs:96-218 | for both shapes `m * adj(m) == adj(m) * m == det(m) * I` |
| Matrices.X2DetIsDet | src/key/matrix.rs:23-25 | `x2_det` of the four entries is the determinant of a 2x2 matrix |
| Matrices.SarrusIsDet | src/key/matrix.rs:76-92 | `calc_a - calc_b` is the determinant of a 3x3 matrix |
| Matrices.X2DetMatrix | src/key/matrix.rs:33-38 | `x2_det_matrix` is the 2x2 determinant reduced mod 26 |
| Matrices.X3DetMatrix | src/key/matrix.rs:56-58 | `x3_det_matrix` is the 3x3 determinant reduced mod 26 |
| Matrices.DetResidue | src/key/matrix.rs:46-68 | the reduced determinant of either shape |
| Matrices.AdjugateList | src/key/matrix.rs:105-197 | the `adj` list has `n * n` entries |
| Matrices.AdjugateListAgrees | src/key/matrix.rs:105-197 | entry `i * n + j` of `adj` is the adjugate's entry `(i, j)` mod 26 |
| Matrices.AdjugateListFlat | src/key/matrix.rs:105-197 | the `adj` list is the flattened adjugate, entry by entry mod 26 |
| Matrices.AdjugateList2 | src/key/matrix.rs:105-110 | the 2x2 `adj` list is the flattened adjugate mod 26 |
| Matrices.AdjugateList3 | src/key/matrix.rs:115-197 | the 3x3 `adj` list is the flattened adjugate mod 26 |
| Matrices.AdjugateList3Exact | src/key/matrix.rs:115-197 | each 3x3 `adj` entry is the adjugate's entry reduced |
| Matrices.Scaled | src/key/matrix.rs:208-212 | the loop of `invert` gives an `n` by `n` matrix of letters |
| Matrices.Inverted | src/key/matrix.rs:96-218 | a successful `invert` gives a matrix of the same shape with letter entries |
| Matrices.InvertedExists | src/key/matrix.rs:206 | `invert` succeeds exactly when the determinant is coprime to 26 |
| Matrices.InvertedAsWrittenPanics | src/key/matrix.rs:99-112 | as written the 2x2 `invert` takes the zero matrix's determinant and panics on every matrix; the 3x3 one is the corrected `invert` |
| Matrices.AdjugateListAgreesAll | src/key/matrix.rs:105-197 | the `adj` list of `invert` agrees with the adjugate |
| Matrices.ScaledEntry | src/key/matrix.rs:210 | a scaled entry is the adjugate entry times the inverse determinant mod 26 |
| Matrices.DetTimesInverse | src/key/matrix.rs:206 | the determinant times the inverse of its residue is 1 mod 26 |
| Matrices.ScaledIsScaledAdjugate | src/key/matrix.rs:208-212 | the loop of `invert` gives the adjugate scaled by the inverse determinant |
| Matrices.LeftEntry | src/key/matrix.rs:208-212 | every entry of the scaled adjugate times the matrix is the identity's mod 26 |
| Matrices.RightEntry | src/key/matrix.rs:208-212 | every entry of the matrix times the scaled adjugate is the identity's mod 26 |
| Matrices.InvertedIsInverse | src/key/matrix.rs:96-218 | whenever `invert` succeeds its result is a two-sided inverse mod 26, for both shapes |
| Matrices.IdentityDet | src/key/matrix.rs:322-325 | the identity matrix has determinant 1 |
| Matrices.IdentityInvertible | src/key/matrix.rs:320-326 | the matrix `reset` writes is invertible |
| Matrices.IsInvertibleAsWrittenPanics | src/key/matrix.rs:222-231 | as written the 2x2 `is_invertible` indexes a third row and panics; the 3x3 one says whether `invert` succeeds |
| Matrices.Misses | src/key/matrix.rs:328-337 | the loop of `randomize` runs at most as many rounds as there are draws |
| Matrices.MissesFirst | src/key/matrix.rs:328-337 | no round before `Misses` is invertible, and round `Misses` is, if there is one |
| Matrices.FirstHit | src/key/matrix.rs:328-337 | the matrix `randomize` stops at has letter entries and an inverse |
| Matrices.RowMajorInRange | src/key/matrix.rs:329-333 | a matrix filled from letters has letter entries |
| Matrices.FillRowMajor | src/key/matrix.rs:283-291 | the nested loop fills the matrix row by row from the vector |
| Matrices.Matrix.constructor | src/key/matrix.rs:310-316 | `new` is the 2x2 zero matrix |
| Matrices.Matrix.FromRows | src/key/matrix.rs:258-265 | `create_from` with rows copies them, the dimension being the number of rows |
| Matrices.Matrix.IsInvertible | src/key/matrix.rs:222-231 | true exactly when the determinant of the matrix's own shape is coprime to 26 |
| Matrices.Matrix.Invert | src/key/matrix.rs:96-218 | a fresh matrix of the same shape that is a two-sided inverse mod 26 |
| Matrices.Matrix.SetKey | src/key/matrix.rs:273-294 | 4 entries give a 2x2 matrix and 9 a 3x3 one, filled row by row |
| Matrices.Matrix.SetKeyString | src/key/matrix.rs:267-272 | the string's letters, 4 or 9 of them, fill the matrix row by row |
| Matrices.Matrix.SetKeyRows | src/key/matrix.rs:295-300 | the rows are copied, the dimension being their number |
| Matrices.Matrix.Reset | src/key/matrix.rs:320-326 | `reset` gives the identity of the current dimension |
| Matrices.Matrix.Round | src/key/matrix.rs:329-336 | one round fills the matrix from its draw and reports success exactly at the first invertible round |
| Matrices.Matrix.Randomize | src/key/matrix.rs:327-338 | `randomize` stops at the first invertible draw, which is a matrix of letters with an inverse |
| Matrices.IsSquare | src/key/matrix.rs:99 | `n` rows of `n` entries (definition; see Matrices.Zeros) |
| Matrices.Supported | src/key/matrix.rs:98-204 | the two shapes `invert` handles, 2x2 and 3x3; any other panics (definition; see Matrices.Inverted) |
| Matrices.Entries26 | src/key/matrix.rs:210 | every entry is a letter of the 26-letter alphabet (definition; see Matrices.Scaled) |
| Matrices.Area | src/key/matrix.rs:210 | the number of entries `n * n` (definition; see Matrices.AreaFlat) |
| Matrices.Flat | src/key/matrix.rs:210 | the row-major index `i * n + j` (definition; see Matrices.AreaFlat) |
| Matrices.Flattened | src/key/matrix.rs:303-309 | the rows one after the other (definition; see Matrices.FlattenedRows) |
| Matrices.X2Det | src/key/matrix.rs:23-25 | `a * d - b * c` (definition; see Matrices.X2DetIsDet) |
| Matrices.Minor | src/key/matrix.rs:115-197 | the determinant once a row and a column are struck out (definition; see Matrices.Adjugate3Entries) |
| Matrices.Cofactor | src/key/matrix.rs:115-197 | the minor with the sign of its place (definition; see Matrices.Adjugate3Entries) |
| Matrices.Det | src/key/matrix.rs:33-58 | the determinant by expansion along the first row, the reference for both `x2_det` and Sarrus's rule (definition; see Matrices.SarrusIsDet) |
| Matrices.Dot | src/key/matrix.rs:96-218 | an entry of the unreduced matrix product (definition; see Matrices.AdjugateProduct) |
| Matrices.InverseMod | src/key/matrix.rs:96-218 | two matrices multiply to the identity modulo 26, either way round (definition; see Matrices.InvertedIsInverse) |
| Matrices.AdjugateRowIdentities0 | src/key/matrix.rs:115-197 | each row of a 3x3 matrix times the adjugate's first column gives the determinant for the first row and 0 for the others |
| Matrices.AdjugateRowIdentities1 | src/key/matrix.rs:115-197 | the same for the adjugate's second column |
| Matrices.AdjugateRowIdentities2 | src/key/matrix.rs:115-197 | the same for the adjugate's third column |
| Matrices.AdjugateColumnIdentities0 | src/key/matrix.rs:115-197 | the adjugate's first row times each column gives the determinant for the first column and 0 for the others |
| Matrices.AdjugateColumnIdentities1 | src/key/matrix.rs:115-197 | the same for the adjugate's second row |
| Matrices.AdjugateColumnIdentities2 | src/key/matrix.rs:115-197 | the same for the adjugate's third row |
| Matrices.CalcA | src/key/matrix.rs:76-80 | the three products of Sarrus's rule taken with `+` (definition; see Matrices.SarrusIsDet) |
| Matrices.CalcB | src/key/matrix.rs:88-92 | the three products of Sarrus's rule taken with `-` (definition; see Matrices.SarrusIsDet) |
| Matrices.Invertible | src/key/matrix.rs:46-68 | the determinant is coprime to 26, so it has an inverse modulo 26 (definition; see Matrices.InvertedExists) |
| Matrices.InvertedAsWritten | src/key/matrix.rs:96-218 | `invert` as written, whose 2x2 case takes the zero matrix's determinant (definition; see Matrices.InvertedAsWrittenPanics) |
| Matrices.GcdZero | src/key/matrix.rs:99-112 | the zero matrix's determinant 0 shares the divisor 26 with 26, so it has no inverse |
| Matrices.AgreesWithAdjugate | src/key/matrix.rs:105-197 | a list of `n * n` values agreeing with the adjugate entry by entry modulo 26 (definition; see Matrices.AdjugateListAgreesAll) |
| Matrices.ScaledAdjugate | src/key/matrix.rs:208-212 | a matrix congruent, entry by entry, to the adjugate times the inverse determinant (definition; see Matrices.ScaledIsScaledAdjugate) |
| Matrices.UnitDet | src/key/matrix.rs:320-326 | a determinant congruent to 1 is coprime to 26 |
| Matrices.IsInvertibleAsWritten | src/key/matrix.rs:222-231 | `is_invertible` as written, which calls the 3x3 helper on both shapes (definition; see Matrices.IsInvertibleAsWrittenPanics) |
| Matrices.Hits | src/key/matrix.rs:329-336 | the entries drawn in one round make an invertible matrix (definition; see Matrices.MissesFirst) |
| Matrices.Matrix.At | src/key/matrix.rs:240-242 | the entry in row `x`, column `y` (definition; see Matrices.Matrix.SetKey) |
| Hill.Block | src/cipher/polygraph/hill.rs:17-29 | one block multiplied by the key has as many entries as the key has rows |
| Hill.Covered | src/cipher/polygraph/hill.rs:16 | the whole-block positions lie within the text |
| Hill.Mixed | src/cipher/polygraph/hill.rs:13-31 | `run_array` writes one code point per covered position, each reduced below the alphabet length |
| Hill.CoveredClosed | src/cipher/polygraph/hill.rs:16 | for dimensions 2 and 3 the covered length is the length rounded down to a multiple of the dimension |
| Hill.CoveredAligned | src/cipher/polygraph/hill.rs:16 | a text of whole blocks is covered completely |
| Hill.PadLength | src/cipher/polygraph/hill.rs:34-36 | the zeros `pad_txt` adds are fewer than the multiple and make the length a multiple |
| Hill.PadNothing | src/cipher/polygraph/hill.rs:34-36 | a text of whole blocks needs no zeros |
| Hill.Padded | src/cipher/polygraph/hill.rs:32-38 | a non-empty text gets the fewest zeros that give whole blocks; the empty text stays empty; the text is a prefix |
| Hill.PaddedAligned | src/cipher/polygraph/hill.rs:32-38 | padding a text of whole blocks changes nothing |
| Hill.BlockUndone3 | src/cipher/polygraph/hill.rs:20-25 | a 3-block multiplied by the key and then by a left inverse gives each code point back mod 26 |
| Hill.BlockUndone2 | src/cipher/polygraph/hill.rs:20 | the same for a 2-block |
| Hill.BlockHasResidues | src/cipher/polygraph/hill.rs:18-28 | the block product taken mod 26 holds the residues of the row sums |
| Hill.BlockEntryUndone | src/cipher/polygraph/hill.rs:17-29 | one entry of a block multiplied by the key and then by its inverse is the original code point |
| Hill.BlockUndone | src/cipher/polygraph/hill.rs:17-29 | a block multiplied by the key and then by its inverse comes back |
| Hill.FirstBlockUndone | src/cipher/polygraph/hill.rs:13-31 | the first block of the text comes back first |
| Hill.MixedInverse | src/cipher/polygraph/hill.rs:13-31 | multiplying by a left inverse mod 26 undoes multiplying by the key, on any text of whole blocks of letters |
| Hill.WrittenVec | src/cipher/polygraph/hill.rs:39-60 | reading the letters of the written text gives exactly the code points written |
| Hill.ReletteredUpper | src/cipher/polygraph/hill.rs:54-57 | relettering the appended uppercase letters gives the uppercase letters of the new code points |
| Hill.ReletteredAppend | src/cipher/polygraph/hill.rs:41-57 | relettering a concatenation reletters each part with its own code points |
| Hill.VecToStringSnoc | src/cipher/polygraph/hill.rs:54-57 | each turn of the `while` loop pushes one more uppercase letter |
| Hill.MapLetters | src/cipher/polygraph/hill.rs:40-52 | the `map` gives each letter the next code point in its own case and counts the letters |
| Hill.ArrToStr | src/cipher/polygraph/hill.rs:39-60 | `arr_to_str` gives the written text: the message relettered, then the extra code points as uppercase letters |
| Hill.EncryptedCps | src/cipher/polygraph/hill.rs:65-73 | no letters give no code points; otherwise whole blocks of letters, at least as many as the message has |
| Hill.Filler | src/cipher/polygraph/hill.rs:32-38 | the padding is fewer than `n` uppercase `A`s and completes the last block |
| Hill.WrittenAll | src/cipher/polygraph/hill.rs:39-60 | writing exactly as many code points as letters is relettering |
| Hill.ReletteredWritten | src/cipher/polygraph/hill.rs:39-60 | relettering a written text is writing over the original message |
| Hill.WrittenTwice | src/cipher/polygraph/hill.rs:39-60 | writing over a written text is writing over the original |
| Hill.CpsRoundTrip | src/cipher/polygraph/hill.rs:64-91 | decrypting the encrypted code points with the inverse gives the padded code points back |
| Hill.WrittenOwn | src/cipher/polygraph/hill.rs:39-60 | writing a message's own padded code points appends the filler |
| Hill.RoundTrip | src/cipher/polygraph/hill.rs:64-91 | with an invertible key decryption gives the message back followed by the padding `A`s |
| Hill.BlockPrefix | src/cipher/polygraph/hill.rs:17-29 | only the first `n` code points enter the first block |
| Hill.FrontBlock | src/cipher/polygraph/hill.rs:16-30 | a text is multiplied as its first block and then the rest |
| Hill.MixedAppend | src/cipher/polygraph/hill.rs:16-30 | whole blocks followed by more text are multiplied part by part |
| Hill.Advance | src/cipher/polygraph/hill.rs:16-30 | one turn of the outer loop extends the multiplied prefix by one block and leaves the rest |
| Hill.Finish | src/cipher/polygraph/hill.rs:16-30 | when the outer loop stops every whole block is multiplied and the rest is untouched |
| Hill.CoveredFrom | src/cipher/polygraph/hill.rs:16 | the covered length splits at each block boundary before it |
| Hill.RunBlock | src/cipher/polygraph/hill.rs:17-29 | the inner loop writes one block's product at `i` and changes nothing else |
| Hill.RunArray | src/cipher/polygraph/hill.rs:13-31 | `run_array` writes the products of the whole blocks and leaves the tail untouched |
| Hill.Hill.constructor | src/cipher/polygraph/hill.rs:95-106 | `new` has the 2x2 identity key |
| Hill.Hill.Encrypt | src/cipher/polygraph/hill.rs:64-76 | `encrypt` writes the padded blocks multiplied by the key over the message |
| Hill.Hill.Decrypt | src/cipher/polygraph/hill.rs:77-91 | `decrypt` does the same with the inverse key, which must exist |
| Hill.ExampleKey | src/cipher/polygraph/hill.rs:124 | the key "alphabeta" is `[[0, 11, 15], [7, 0, 1], [4, 19, 0]]` |
| Hill.Block3 | src/cipher/polygraph/hill.rs:21-25 | a 3-block is its three row sums reduced |
| Hill.AlphabetaBlock | src/cipher/polygraph/hill.rs:21-25 | a block under the key "alphabeta", entry by entry |
| Hill.ExampleFrom12 | src/cipher/polygraph/hill.rs:121-130 | the last block of the padded "SECRETMESSAGE" |
| Hill.ExampleFrom9 | src/cipher/polygraph/hill.rs:121-130 | the last two blocks of the padded "SECRETMESSAGE" |
| Hill.ExampleFrom6 | src/cipher/polygraph/hill.rs:121-130 | the last three blocks of the padded "SECRETMESSAGE" |
| Hill.ExampleFrom3 | src/cipher/polygraph/hill.rs:121-130 | the last four blocks of the padded "SECRETMESSAGE" |
| Hill.ExampleFrom0 | src/cipher/polygraph/hill.rs:121-130 | all five blocks of the padded "SECRETMESSAGE" |
| Hill.ExampleDet | src/cipher/polygraph/hill.rs:124 | the key "alphabeta" has determinant 2039, which is 11 mod 26 |
| Hill.ExampleKeyInvertible | src/cipher/polygraph/hill.rs:132-141 | the key "alphabeta" has an inverse |
| Hill.ExampleCps | src/cipher/polygraph/hill.rs:120-130 | "SECRETMESSAGE" pads with two zeros and encrypts to the code points of "WYSRIOCYUMCUACQ" |
| Hill.RowTimesBlock | src/cipher/polygraph/hill.rs:18-28 | row `j` of the key times the block at the front of the text, before reduction (definition; see Hill.BlockHasResidues) |
| Hill.BlockResidues | src/cipher/polygraph/hill.rs:18-28 | a block holds the residues of the row products (definition; see Hill.BlockHasResidues) |
| Hill.Written | src/cipher/polygraph/hill.rs:39-60 | `arr_to_str`'s result: the letters take the first code points in their own case, other characters stay, the remaining code points follow as uppercase letters (definition; see Hill.WrittenVec) |
| Hill.Encrypted | src/cipher/polygraph/hill.rs:64-76 | `encrypt`: the padded code points multiplied block by block, written over the message (definition; see Hill.RoundTrip) |
| Hill.Decrypted | src/cipher/polygraph/hill.rs:77-91 | `decrypt`: the same with the inverse key, which must exist (definition; see Hill.RoundTrip) |
| Hill.GcdEleven | src/cipher/polygraph/hill.rs:132-141 | 11, the determinant of the example key mod 26, is coprime to 26 |
| ClassicVigenere.EncryptCps | src/cipher/polyalph/classic_vig.rs:17-33 | one letter out per letter in, each a code point |
| ClassicVigenere.DecryptCps | src/cipher/polyalph/classic_vig.rs:34-50 | one letter out per letter in, each a code point |
| ClassicVigenere.CpsValues | src/cipher/polyalph/classic_vig.rs:17-50 | letter `n` is shifted forward by keyword letter `n mod len` when encrypting and back when decrypting |
| ClassicVigenere.DecryptEncryptCps | src/cipher/polyalph/classic_vig.rs:17-50 | decrypting the encrypted code points gives them back |
| ClassicVigenere.RoundTrip | src/cipher/polyalph/classic_vig.rs:17-50 | decryption undoes encryption on a message of the alphabet's letters |
| ClassicVigenere.LookupStep | src/cipher/polyalph/classic_vig.rs:22-25 | the tableau lookup at letter `n` is code point `n` of either direction |
| ClassicVigenere.EncryptStep | src/cipher/polyalph/classic_vig.rs:21-27 | the letter branch of `encrypt` looks up code point `count` of the encryption and extends the relettered prefix by it |
| ClassicVigenere.DecryptStep | src/cipher/polyalph/classic_vig.rs:38-44 | the letter branch of `decrypt` does the same with the inverse lookup |
| ClassicVigenere.ClassicVigenere.EncryptChar | src/cipher/polyalph/classic_vig.rs:20-31 | one character of `encrypt`: a letter is encrypted under the next keyword letter, anything else is copied, and the walk moves on by one |
| ClassicVigenere.ClassicVigenere.EncryptLetter | src/cipher/polyalph/classic_vig.rs:21-27 | a letter of `encrypt` writes code point `count` of the encryption and counts one more letter |
| ClassicVigenere.ClassicVigenere.DecryptChar | src/cipher/polyalph/classic_vig.rs:37-48 | one character of `decrypt`, the same way back |
| ClassicVigenere.ClassicVigenere.DecryptLetter | src/cipher/polyalph/classic_vig.rs:38-44 | a letter of `decrypt` writes code point `count` of the decryption and counts one more letter |
| ClassicVigenere.SolveDecryptMatches | src/cipher/polyalph/classic_vig.rs:76-78 | the closure `solve` passes is the tableau's inverse lookup, subtraction mod 26 |
| ClassicVigenere.SolveShiftBlind | src/cipher/polyalph/classic_vig.rs:76-78 | the shift `solve` uses never reads the plaintext so far |
| ClassicVigenere.ClassicVigenere.constructor | src/cipher/polyalph/classic_vig.rs:54-59 | `new` has the classic tableau and the keyword `[0]` |
| ClassicVigenere.ClassicVigenere.Encrypt | src/cipher/polyalph/classic_vig.rs:17-33 | `encrypt` shifts each letter by the keyword letter for its position among the letters; a message without letters comes back unchanged under any keyword, even an empty one |
| ClassicVigenere.ClassicVigenere.Decrypt | src/cipher/polyalph/classic_vig.rs:34-50 | `decrypt` shifts each letter back the same way; a message without letters comes back unchanged under any keyword, even an empty one |
| ClassicVigenere.SolveShiftLocal | src/cipher/polyalph/classic_vig.rs:76-78 | the shift for position `idx` reads only keyword letter `idx mod key_len` and no plaintext |
| ClassicVigenere.SolveDecryption | src/cipher/polyalph/classic_vig.rs:76-78 | the decryption the solver builds under a usable key is the Vigenère decryption of the ciphertext |
| ClassicVigenere.SolveTrialScored | src/cipher/polyalph/classic_vig.rs:71-81 | a key length's key is usable (non-empty, entries below 26), its final score is the scorer's value of the Vigenère decryption under that key, and the buffer then holds that decryption |
| ClassicVigenere.SolveTrialsScored | src/cipher/polyalph/classic_vig.rs:71-81 | every trial of the solver scores the Vigenère decryption under its own key |
| ClassicVigenere.ClassicVigenere.Solve | src/cipher/polyalph/classic_vig.rs:71-81 | the keyword is the key of the first key length whose Vigenère decryption scores highest, usable and at most 30 long; it is empty without letters, and also when even that best score is only `f64::MIN` |
| ClassicVigenere.ClassicVigenere.Reset | src/cipher/polyalph/classic_vig.rs:60-62 | only the keyword changes, back to `[0]` |
| ClassicVigenere.ClassicVigenere.Randomize | src/cipher/polyalph/classic_vig.rs:63-65 | only the keyword changes, to the drawn letters |
| ClassicVigenere.Encrypted | src/cipher/polyalph/classic_vig.rs:17-33 | the letters' code points shifted by the keyword, written over the message (definition; see ClassicVigenere.RoundTrip) |
| ClassicVigenere.Decrypted | src/cipher/polyalph/classic_vig.rs:34-50 | the letters' code points shifted back by the keyword (definition; see ClassicVigenere.RoundTrip) |
| ClassicVigenere.SolveDecrypt | src/cipher/polyalph/classic_vig.rs:76-78 | the decryption closure `solve` hands the solver, as the initialised tableau computes it (definition; see ClassicVigenere.SolveDecryptMatches) |
| ClassicVigenere.SolveShift | src/cipher/polyalph/classic_vig.rs:76-78 | the shift for a position, the keyword letter `encrypt` would use there (definition; see ClassicVigenere.SolveShiftBlind) |
| ClassicVigenere.ClassicVigenere.Valid | src/cipher/polyalph/classic_vig.rs:54-59 | the tableau is built and initialised (definition; see ClassicVigenere.ClassicVigenere.constructor) |
| KeyedVigenere.EncryptCps | src/cipher/polyalph/keyed_vig.rs:20-36 | one letter out per letter in, each a code point |
| KeyedVigenere.DecryptCps | src/cipher/polyalph/keyed_vig.rs:37-53 | one letter out per letter in, each a code point |
| KeyedVigenere.DecryptEncryptCps | src/cipher/polyalph/keyed_vig.rs:20-53 | under any mixed alphabet decrypting the encrypted code points gives them back |
| KeyedVigenere.RoundTrip | src/cipher/polyalph/keyed_vig.rs:20-53 | under any mixed alphabet decryption undoes encryption on plain letters |
| KeyedVigenere.KeyedCells | src/cipher/polyalph/keyed_vig.rs:25-45 | the keyed tableau's lookups are the mixed alphabet rotated and its inverse |
| KeyedVigenere.LookupStep | src/cipher/polyalph/keyed_vig.rs:25-45 | the tableau lookup at letter `n` is code point `n` of either direction |
| KeyedVigenere.KeyedVigenere.constructor | src/cipher/polyalph/keyed_vig.rs:57-62 | `new` has the tableau over the plain alphabet and the keyword `[0]` |
| KeyedVigenere.KeyedVigenere.Encrypt | src/cipher/polyalph/keyed_vig.rs:20-36 | `encrypt` looks each letter up in the keyed tableau at the keyword letter for its position; a message without letters comes back unchanged under any keyword, even an empty one |
| KeyedVigenere.KeyedVigenere.Decrypt | src/cipher/polyalph/keyed_vig.rs:37-53 | `decrypt` finds each letter's position in the keyword letter's row; a message without letters comes back unchanged under any keyword, even an empty one |
| KeyedVigenere.KeyedVigenere.Reset | src/cipher/polyalph/keyed_vig.rs:63-65 | only the keyword changes, back to `[0]` |
| KeyedVigenere.KeyedVigenere.Randomize | src/cipher/polyalph/keyed_vig.rs:66-68 | only the keyword changes, to the drawn letters |
| KeyedVigenere.Encrypted | src/cipher/polyalph/keyed_vig.rs:20-36 | the letters' code points encrypted through the keyed tableau, written over the message (definition; see KeyedVigenere.RoundTrip) |
| KeyedVigenere.Decrypted | src/cipher/polyalph/keyed_vig.rs:37-53 | the same through the keyed tableau's inverse (definition; see KeyedVigenere.RoundTrip) |
| KeyedVigenere.EncryptStep | src/cipher/polyalph/keyed_vig.rs:24-30 | the letter branch of `encrypt` looks up inside the tableau and extends the relettered prefix by that letter |
| KeyedVigenere.DecryptStep | src/cipher/polyalph/keyed_vig.rs:41-47 | the letter branch of `decrypt` does the same with the inverse |
| KeyedVigenere.KeyedVigenere.EncryptChar | src/cipher/polyalph/keyed_vig.rs:23-33 | one character of `encrypt`: a letter goes through the keyed tableau under the next keyword letter, anything else is copied |
| KeyedVigenere.KeyedVigenere.EncryptLetter | src/cipher/polyalph/keyed_vig.rs:24-30 | a letter of `encrypt` writes code point `count` of the encryption and counts one more letter |
| KeyedVigenere.KeyedVigenere.DecryptChar | src/cipher/polyalph/keyed_vig.rs:40-50 | one character of `decrypt`, the same way back |
| KeyedVigenere.KeyedVigenere.DecryptLetter | src/cipher/polyalph/keyed_vig.rs:41-47 | a letter of `decrypt` writes code point `count` of the decryption and counts one more letter |
| KeyedVigenere.KeyedVigenere.Valid | src/cipher/polyalph/keyed_vig.rs:57-62 | the tableau is built and keyed (definition; see KeyedVigenere.KeyedVigenere.constructor) |
| Autokey.AutoKey | src/cipher/polyalph/autokey.rs:30-34 | the key letter is a code point |
| Autokey.EncryptCps | src/cipher/polyalph/autokey.rs:20-44 | one letter out per letter in, each a code point |
| Autokey.DecryptCps | src/cipher/polyalph/autokey.rs:45-67 | one letter out per letter in, each a code point |
| Autokey.EncryptCpsValues | src/cipher/polyalph/autokey.rs:26-36 | the first letters are shifted by the keyword, every later one by the plaintext letter a keyword length before it |
| Autokey.EncryptPrefix | src/cipher/polyalph/autokey.rs:20-44 | encrypting a prefix gives the prefix of the ciphertext |
| Autokey.DecryptEncryptCps | src/cipher/polyalph/autokey.rs:20-67 | decryption recovers the plaintext code points |
| Autokey.RoundTrip | src/cipher/polyalph/autokey.rs:20-67 | decryption undoes encryption on a message of plain letters |
| Autokey.SameSlot | src/cipher/polyalph/autokey.rs:26 | letter `n` and letter `n - len` share a buffer slot |
| Autokey.DistinctSlots | src/cipher/polyalph/autokey.rs:26 | letters fewer than `len` apart use different slots |
| Autokey.HoldsStep | src/cipher/polyalph/autokey.rs:36 | writing letter `count` at its slot keeps the last `len` plaintext letters in the buffer |
| Autokey.HoldsEarlier | src/cipher/polyalph/autokey.rs:33 | once the keyword is used up, the slot holds the plaintext letter a keyword length back |
| Autokey.EncryptStep | src/cipher/polyalph/autokey.rs:26-36 | the lookup `encrypt` makes at letter `count` is ciphertext letter `count` |
| Autokey.DecryptStep | src/cipher/polyalph/autokey.rs:51-59 | the lookup `decrypt` makes at letter `count` is plaintext letter `count` |
| Autokey.Autokey.constructor | src/cipher/polyalph/autokey.rs:71-76 | `new` has the classic tableau and the keyword `[0]` |
| Autokey.Autokey.Encrypt | src/cipher/polyalph/autokey.rs:20-44 | `encrypt` gives the autokey encryption of the message's letters; a message without letters comes back unchanged under any keyword, even an empty one |
| Autokey.Autokey.Decrypt | src/cipher/polyalph/autokey.rs:45-67 | `decrypt` gives the autokey decryption of the message's letters; a message without letters comes back unchanged under any keyword, even an empty one |
| Autokey.Autokey.Reset | src/cipher/polyalph/autokey.rs:77-79 | only the keyword changes, back to `[0]` |
| Autokey.Autokey.Randomize | src/cipher/polyalph/autokey.rs:80-82 | only the keyword changes, to the drawn letters |
| Autokey.DecryptAt | src/cipher/polyalph/autokey.rs:51-61 | plaintext letter `n` is the ciphertext letter shifted back by the keyword letter or by plaintext letter `n - len` |
| Autokey.DecryptPrefix | src/cipher/polyalph/autokey.rs:45-67 | decrypting a prefix gives the prefix of the plaintext |
| Autokey.Encrypted | src/cipher/polyalph/autokey.rs:20-44 | the letters' code points encrypted with the keyword and then the plaintext as key, written over the message (definition; see Autokey.RoundTrip) |
| Autokey.Decrypted | src/cipher/polyalph/autokey.rs:45-67 | the letters' code points decrypted, each recovered letter keying a later one (definition; see Autokey.RoundTrip) |
| Autokey.Holds | src/cipher/polyalph/autokey.rs:26-36 | the key buffer holds the code points of the last letters, each at its letter's slot (definition; see Autokey.HoldsStep) |
| Autokey.Ring | src/cipher/polyalph/autokey.rs:22-36 | `pt_vec` after `n` letters: `len` zeros, then each letter written at its slot; always `len` long |
| Autokey.RingHolds | src/cipher/polyalph/autokey.rs:22-36 | after `n` letters `pt_vec` holds the last `len` plaintext code points, each at its slot |
| Autokey.EncryptLetter | src/cipher/polyalph/autokey.rs:25-38 | the letter branch of `encrypt` reads code point `count` of the ciphertext and leaves `pt_vec` as the ring after `count + 1` letters |
| Autokey.DecryptLetter | src/cipher/polyalph/autokey.rs:50-61 | the letter branch of `decrypt` recovers plaintext code point `count` and leaves `pt_vec` as the ring of recovered letters after `count + 1` |
| Autokey.Autokey.EncryptChar | src/cipher/polyalph/autokey.rs:24-42 | one character of `encrypt`: a letter is encrypted and recorded in `pt_vec`, anything else is copied and `pt_vec` is left alone |
| Autokey.Autokey.EncryptLetterAt | src/cipher/polyalph/autokey.rs:25-38 | a letter of `encrypt` writes ciphertext code point `count` and stores its plaintext code point at slot `count mod len` |
| Autokey.Autokey.DecryptChar | src/cipher/polyalph/autokey.rs:49-65 | one character of `decrypt`: a letter is decrypted and its plaintext recorded in `pt_vec`, anything else is copied |
| Autokey.Autokey.DecryptLetterAt | src/cipher/polyalph/autokey.rs:50-61 | a letter of `decrypt` writes plaintext code point `count` and stores it at slot `count mod len` |
| Autokey.Autokey.Valid | src/cipher/polyalph/autokey.rs:71-76 | the tableau is built and initialised (definition; see Autokey.Autokey.constructor) |
| Beaufort.RunCps | src/cipher/polyalph/beaufort.rs:20-36 | one letter out per letter in, each a code point |
| Beaufort.RunCpsValues | src/cipher/polyalph/beaufort.rs:25-28 | each letter becomes its keyword letter minus itself, mod 26 |
| Beaufort.RunCpsTwice | src/cipher/polyalph/beaufort.rs:20-36 | applying the transform twice with the same keyword gives the code points back |
| Beaufort.Involution | src/cipher/polyalph/beaufort.rs:20-36 | `run` is its own inverse on a message of plain letters |
| Beaufort.LookupStep | src/cipher/polyalph/beaufort.rs:25-28 | the tableau lookup at letter `n` is code point `n` of the transform |
| Beaufort.LetterStep | src/cipher/polyalph/beaufort.rs:24-30 | the letter branch of `run` looks up code point `count` of the transform and extends the relettered prefix by it |
| Beaufort.Beaufort.RunChar | src/cipher/polyalph/beaufort.rs:23-34 | one character of `run`: a letter is looked up under the next keyword letter, anything else is copied, and the walk moves on by one |
| Beaufort.Beaufort.RunLetter | src/cipher/polyalph/beaufort.rs:24-30 | a letter of `run` writes code point `count` of the transform and counts one more letter |
| Beaufort.Beaufort.constructor | src/cipher/polyalph/beaufort.rs:40-45 | `new` has the classic tableau and the keyword `[0]` |
| Beaufort.Beaufort.Run | src/cipher/polyalph/beaufort.rs:20-36 | `run` transforms each letter through the tableau at the keyword letter for its position; a message without letters comes back unchanged under any keyword, even an empty one |
| Beaufort.Beaufort.Reset | src/cipher/polyalph/beaufort.rs:46-48 | only the keyword changes, back to `[0]` |
| Beaufort.Beaufort.Randomize | src/cipher/polyalph/beaufort.rs:49-51 | only the keyword changes, to the drawn letters |
| Beaufort.Ran | src/cipher/polyalph/beaufort.rs:20-36 | the letters' code points run through the Beaufort tableau with the keyword, written over the message (definition; see Beaufort.Involution) |
| Beaufort.Beaufort.Valid | src/cipher/polyalph/beaufort.rs:40-45 | the tableau is built and initialised (definition; see Beaufort.Beaufort.constructor) |
| Porta.RunCps | src/cipher/polyalph/porta.rs:19-35 | one letter out per letter in, each a code point |
| Porta.RunCpsValues | src/cipher/polyalph/porta.rs:24-27 | the row used is one of the thirteen written ones, and every letter moves to the other half of the alphabet |
| Porta.RunCpsTwice | src/cipher/polyalph/porta.rs:19-35 | applying the transform twice with the same keyword gives the code points back |
| Porta.Involution | src/cipher/polyalph/porta.rs:19-35 | `run` is its own inverse on a message of plain letters |
| Porta.LookupStep | src/cipher/polyalph/porta.rs:24-27 | the tableau lookup at letter `n` is code point `n` of the transform |
| Porta.LetterStep | src/cipher/polyalph/porta.rs:23-29 | the letter branch of `run` looks up code point `count` of the transform and extends the relettered prefix by it |
| Porta.Porta.RunChar | src/cipher/polyalph/porta.rs:22-33 | one character of `run`: a letter is looked up under the next keyword letter, anything else is copied, and the walk moves on by one |
| Porta.Porta.RunLetter | src/cipher/polyalph/porta.rs:23-29 | a letter of `run` writes code point `count` of the transform and counts one more letter |
| Porta.Porta.constructor | src/cipher/polyalph/porta.rs:39-44 | `new` has the Porta tableau and the keyword `[0]` |
| Porta.Porta.Run | src/cipher/polyalph/porta.rs:19-35 | `run` transforms each letter through the tableau at the keyword letter for its position; a message without letters comes back unchanged under any keyword, even an empty one |
| Porta.Porta.Reset | src/cipher/polyalph/porta.rs:45-47 | only the keyword changes, back to `[0]` |
| Porta.Porta.Randomize | src/cipher/polyalph/porta.rs:48-50 | only the keyword changes, to the drawn letters |
| Porta.Ran | src/cipher/polyalph/porta.rs:19-35 | the letters' code points run through the Porta tableau with the keyword, written over the message (definition; see Porta.Involution) |
| Porta.Porta.Valid | src/cipher/polyalph/porta.rs:39-44 | the tableau is built and initialised (definition; see Porta.Porta.constructor) |
| Bellaso.RunCps | src/cipher/polyalph/bellaso.rs:19-35 | one letter out per letter in, each a code point |
| Bellaso.RunCpsValues | src/cipher/polyalph/bellaso.rs:24-27 | keyword letters below 13 move a letter to the other half of the alphabet, the others keep it in its half |
| Bellaso.RunCpsTwice | src/cipher/polyalph/bellaso.rs:19-35 | applying the transform twice with the same keyword gives the code points back |
| Bellaso.Involution | src/cipher/polyalph/bellaso.rs:19-35 | `run` is its own inverse on a message of plain letters |
| Bellaso.LookupStep | src/cipher/polyalph/bellaso.rs:24-27 | the tableau lookup at letter `n` is code point `n` of the transform |
| Bellaso.LetterStep | src/cipher/polyalph/bellaso.rs:23-29 | the letter branch of `run` looks up code point `count` of the transform and extends the relettered prefix by it |
| Bellaso.Bellaso.RunChar | src/cipher/polyalph/bellaso.rs:22-33 | one character of `run`: a letter is looked up under the next keyword letter, anything else is copied, and the walk moves on by one |
| Bellaso.Bellaso.RunLetter | src/cipher/polyalph/bellaso.rs:23-29 | a letter of `run` writes code point `count` of the transform and counts one more letter |
| Bellaso.Bellaso.constructor | src/cipher/polyalph/bellaso.rs:39-44 | `new` has the Bellaso tableau and the keyword `[0]` |
| Bellaso.Bellaso.Run | src/cipher/polyalph/bellaso.rs:19-35 | `run` transforms each letter through the tableau at the keyword letter for its position; a message without letters comes back unchanged under any keyword, even an empty one |
| Bellaso.Bellaso.Reset | src/cipher/polyalph/bellaso.rs:45-47 | only the keyword changes, back to `[0]` |
| Bellaso.Bellaso.Randomize | src/cipher/polyalph/bellaso.rs:48-50 | only the keyword changes, to the drawn letters |
| Bellaso.Ran | src/cipher/polyalph/bellaso.rs:19-35 | the letters' code points run through the Bellaso tableau with the keyword, written over the message (definition; see Bellaso.Involution) |
| Bellaso.Bellaso.Valid | src/cipher/polyalph/bellaso.rs:39-44 | the tableau is built and initialised (definition; see Bellaso.Bellaso.constructor) |
| VigSolver.Sweep | src/cipher/polyalph/mod.rs:60-63 | a strided re-decryption keeps the plaintext's length |
| VigSolver.SweepFrame | src/cipher/polyalph/mod.rs:60-63 | positions before the start or off the stride keep their plaintext |
| VigSolver.SweepBlind | src/cipher/polyalph/mod.rs:60-63 | with a shift that ignores the plaintext, every position on the stride holds its own decryption |
| VigSolver.RisingSnoc | src/cipher/polyalph/mod.rs:49-86 | a sweep gaining at least 0.1 keeps the climb going; one gaining less ends it |
| VigSolver.TrialsShapedSnoc | src/cipher/polyalph/mod.rs:38-93 | appending the next key length's trial keeps the trials in order of key length, shifts and climbs |
| VigSolver.FirstMaxSnoc | src/cipher/polyalph/mod.rs:89-92 | a later trial replaces the best only when it scores strictly higher |
| VigSolver.Redecrypt | src/cipher/polyalph/mod.rs:44-47 | the `step_by` loops leave the plaintext as the strided sweep says |
| VigSolver.Redecrypted | src/cipher/polyalph/mod.rs:60-63 | the strided re-decryption of one column keeps the buffer's length |
| VigSolver.ShiftsFrom | src/cipher/polyalph/mod.rs:56 | the shifts still to try lie in `shift..26` on the `shift_inc` grid |
| VigSolver.TriesFrom | src/cipher/polyalph/mod.rs:56-64 | there is one scored plaintext per remaining shift |
| VigSolver.LastTry | src/cipher/polyalph/mod.rs:56-64 | the buffer the shift loop leaves has the ciphertext's length |
| VigSolver.RunBestProps | src/cipher/polyalph/mod.rs:65-70 | the running best is at least the old score and every tried score, and is either unchanged or the score and shift of the first plaintext beating it |
| VigSolver.FirstBestCons | src/cipher/polyalph/mod.rs:65-70 | a first best of the later tries, after a first try that only raised the running score, is a first best of all tries |
| VigSolver.Column | src/cipher/polyalph/mod.rs:53-79 | a column changes that key entry only and keeps the buffer's and the key's lengths |
| VigSolver.ColumnBest | src/cipher/polyalph/mod.rs:53-79 | a column ends with the maximum of the running score and its tried scores; it keeps the old key and score, or takes the shift of the first try reaching that maximum |
| VigSolver.Pass | src/cipher/polyalph/mod.rs:52-80 | a sweep over all columns keeps the buffer's and the key's lengths |
| VigSolver.Zeros | src/cipher/polyalph/mod.rs:36 | `vec![0; n]` has `n` zero entries |
| VigSolver.Start | src/cipher/polyalph/mod.rs:39-47 | the initial decrypt under the zero key of length `key_len` keeps the buffer's length |
| VigSolver.PathSnoc | src/cipher/polyalph/mod.rs:49-86 | adding the next sweep to a climb keeps every state the sweep of the one before and records its score |
| VigSolver.Climbing | src/cipher/polyalph/mod.rs:39-86 | one key length's state before a sweep: a path of whole sweeps from the initial decrypt, each sweep so far gaining at least 0.1, key entries shifts and the running score that of the last sweep, `f64::MIN` before any (definition; see VigSolver.ClimbingSnoc) |
| VigSolver.ClimbingSnoc | src/cipher/polyalph/mod.rs:49-86 | a sweep gaining at least 0.1 continues the climb; one gaining less ends it, with the path a run of that key length whose scores climb |
| VigSolver.PathsAgree | src/cipher/polyalph/mod.rs:49-86 | two climbs from one state agree at every step both reach |
| VigSolver.ShorterNotClimb | src/cipher/polyalph/mod.rs:82-85 | a climb that stopped is a prefix that rules out any longer climb from the same state |
| VigSolver.PathUnique | src/cipher/polyalph/mod.rs:49-86 | the climb of a key length is determined by its start: two stopping climbs from one state are equal |
| VigSolver.StrideMod | src/cipher/polyalph/mod.rs:60-63 | the stride `(col..).step_by(k)` holds exactly the positions equal to `col` modulo `k` |
| VigSolver.DecryptionLocal | src/cipher/polyalph/mod.rs:60-63 | with a shift that reads one key entry, keys agreeing at entry `j mod k` decrypt position `j` alike |
| VigSolver.RedecryptedColumn | src/cipher/polyalph/mod.rs:60-63 | re-decrypting column `col` of a buffer that is right off that column gives the whole decryption under the new key |
| VigSolver.TriesDecrypt | src/cipher/polyalph/mod.rs:56-64 | every plaintext the shift loop scores is the full decryption under the key with that shift |
| VigSolver.ColumnScored | src/cipher/polyalph/mod.rs:53-79 | when the buffer is the decryption under the key and the running score is its score (or `f64::MIN` that nothing beat), so it is after a column, under the new key, whose entries stay shifts |
| VigSolver.ShiftsFromHas | src/cipher/polyalph/mod.rs:56 | every shift `x` below 26 reachable from the start by steps of `shift_inc` is among those `(0..26).step_by(shift_inc)` tries |
| VigSolver.PassScored | src/cipher/polyalph/mod.rs:52-80 | a sweep keeps the buffer the decryption under the key, its running score is the score of that decryption, and the key's entries stay shifts |
| VigSolver.StartDecrypts | src/cipher/polyalph/mod.rs:43-47 | the initial decrypt is the decryption under the zero key |
| VigSolver.TrialScored | src/cipher/polyalph/mod.rs:38-86 | with a shift reading one key entry, each sweep's score is the scorer's value of the decryption under that sweep's key, and the buffer ends as the decryption under the final key |
| VigSolver.TrialsRunSnoc | src/cipher/polyalph/mod.rs:38-93 | the next key length, run on the buffer the last one left, extends the record of runs |
| VigSolver.Solving | src/cipher/polyalph/mod.rs:34-93 | the solver's state between key lengths: each trial so far ran on the buffer the one before left, the buffer is what the last one left, and the running best and key are kept as the source keeps them (definition; see VigSolver.SolvingSnoc) |
| VigSolver.SolvingSnoc | src/cipher/polyalph/mod.rs:38-93 | one more key length, run on the buffer the last one left, extends that state, moving the running best and key only on a strictly higher score |
| VigSolver.ColumnStep | src/cipher/polyalph/mod.rs:56-71 | one shift of the loop advances the running best and the remaining tries together |
| VigSolver.ColumnSoFar | src/cipher/polyalph/mod.rs:53-71 | the shift loop's state: the shifts tried so far are multiples of `shift_inc`, the kept shift is one, the running score lies between the column's start and `f64::MAX`, and finishing the loop from here gives what the whole loop gives (definition; see VigSolver.ColumnSoFarStep) |
| VigSolver.ColumnSoFarStep | src/cipher/polyalph/mod.rs:56-71 | trying one more shift, decrypting the column under it and keeping it only on a strictly higher score, keeps the loop's state |
| VigSolver.ColumnSoFarDone | src/cipher/polyalph/mod.rs:53-79 | after the last shift, the running score and the column re-decrypted with the kept shift are `Column` of the state the loop began from, and the key's entries stay shifts |
| VigSolver.TryColumn | src/cipher/polyalph/mod.rs:52-79 | the buffer, key and running score become `Column` of the old ones: the first shift raising the score most is kept and the column re-decrypted with it (see ColumnBest) |
| VigSolver.ClimbKeyLen | src/cipher/polyalph/mod.rs:39-86 | one key length runs the initial decrypt and then whole sweeps `Pass`, recording each running score, until a sweep gains less than 0.1; the key ends as the last state's key and the score as the last sweep's, at least `f64::MIN`; the climb ends because the scores are finite `f64` values |
| VigSolver.VigSolve | src/cipher/polyalph/mod.rs:23-96 | each key length 1..min(30, len) runs on the buffer the previous one left; the key is empty for an empty ciphertext, and otherwise is that of the first key length with the highest final score, or empty when that score is only `f64::MIN` |
| VigSolver.KeptTrial | src/cipher/polyalph/mod.rs:34-35 | the running best and key: `f64::MIN` and the empty key before any trial, then the first best trial's score, with its key once that score is above `f64::MIN` (definition; see VigSolver.KeptTrialSnoc) |
| VigSolver.KeptTrialSnoc | src/cipher/polyalph/mod.rs:89-92 | a trial scoring strictly above the running best takes its place with its key; any other keeps the best and key |
| VigSolver.KeptTrialKey | src/cipher/polyalph/mod.rs:89-95 | the kept key is no longer than the number of trials, its entries are shifts, and it is the first best trial's key unless that trial scores only `f64::MIN` |
| VigSolver.AbsReal | src/cipher/polyalph/mod.rs:83 | `f64::abs` (definition; see VigSolver.Climb) |
| VigSolver.MinInt | src/cipher/polyalph/mod.rs:38 | `usize::min` (definition; see VigSolver.TrialsShaped) |
| VigSolver.Shifts | src/cipher/polyalph/mod.rs:56-73 | every key entry is one of the shifts `(0..26).step_by(shift_inc)` (definition; see VigSolver.TryColumn) |
| VigSolver.PlaintextBlind | src/cipher/polyalph/mod.rs:21 | `get_shift` ignores the plaintext argument (definition; required by VigSolver.SweepBlind) |
| VigSolver.Prior | src/cipher/polyalph/mod.rs:40-41 | the running score before a sweep, `f64::MIN` before the first (definition; see VigSolver.ClimbKeyLen) |
| VigSolver.Climb | src/cipher/polyalph/mod.rs:49-86 | the scores after each sweep never fall, each sweep but the last gains at least 0.1 and the last gains less (definition; see VigSolver.ClimbKeyLen) |
| VigSolver.Rising | src/cipher/polyalph/mod.rs:49-86 | every sweep so far gained at least 0.1 (definition; see VigSolver.RisingSnoc) |
| VigSolver.RunBest | src/cipher/polyalph/mod.rs:65-70 | the running best of the shift loop: a strictly higher score replaces it and records the shift (definition; see VigSolver.RunBestProps) |
| VigSolver.FirstBest | src/cipher/polyalph/mod.rs:65-70 | a shift scores strictly above the score before it and no earlier shift reaches it (definition; see VigSolver.FirstBestCons) |
| VigSolver.Path | src/cipher/polyalph/mod.rs:49-86 | each state of one key length is the whole sweep of the one before (definition; see VigSolver.PathUnique) |
| VigSolver.SweepScores | src/cipher/polyalph/mod.rs:49-86 | the running score after each sweep of a path (definition; see VigSolver.TrialScored) |
| VigSolver.FinalScore | src/cipher/polyalph/mod.rs:88-92 | the score a key length ends with, `f64::MIN` before any sweep (definition; see VigSolver.FirstMax) |
| VigSolver.TrialsShaped | src/cipher/polyalph/mod.rs:38-86 | trial `i` tried key length `i + 1`, its key entries are shifts and its scores climb (definition; see VigSolver.VigSolve) |
| VigSolver.FirstMax | src/cipher/polyalph/mod.rs:88-92 | the returned trial scores best, and every earlier one strictly less (definition; see VigSolver.VigSolve) |
| VigSolver.ColumnLocal | src/cipher/polyalph/mod.rs:21 | `get_shift` ignores the plaintext and reads only key entry `idx mod key_len` (definition; required by VigSolver.DecryptionLocal) |
| VigSolver.Decryption | src/cipher/polyalph/mod.rs:44-47 | the ciphertext decrypted under a key, position by position, keeps the ciphertext's length |
| VigSolver.OffColumn | src/cipher/polyalph/mod.rs:60-63 | the buffer agrees with the decryption under the key away from the current column (definition; see VigSolver.ColumnStep) |
| VigSolver.EndPt | src/cipher/polyalph/mod.rs:36-47 | the plaintext a trial leaves in the buffer (definition; see VigSolver.TrialsRunSnoc) |
| VigSolver.TrialRuns | src/cipher/polyalph/mod.rs:38-86 | one key length's trial run on the buffer it starts from: initial decrypt, sweeps and their scores (definition; see VigSolver.TrialScored) |
| VigSolver.TrialsRun | src/cipher/polyalph/mod.rs:36-93 | each key length runs on the buffer the one before left, the first on zeros (definition; see VigSolver.VigSolve) |
| VigSolver.TrialsRunAt | src/cipher/polyalph/mod.rs:36-93 | trial `j` of a recorded run is what key length `j + 1` does to the buffer the trial before it left |
| VigSolver.TrialsScoredAt | src/cipher/polyalph/mod.rs:38-93 | with a shift reading one key entry, trial `j` ends with the scorer's value of the decryption under its key, and the buffer it leaves is that decryption |
| VigSolver.PriorPt | src/cipher/polyalph/mod.rs:36-38 | the buffer a key length starts from: zeros for the first, else what the key length before left (definition; see VigSolver.TrialsRunSnoc) |
| Transpositions.Gathered | src/cipher/transpos/block_transpos.rs:44 | one code point is gathered per index |
| Transpositions.GatheredRange | src/cipher/transpos/block_transpos.rs:44 | gathered code points stay in the alphabet |
| Transpositions.TransposedLetters | src/cipher/transpos/block_transpos.rs:37-50 | non-letters keep their places; the `k`-th letter keeps its case and takes the code point of letter `idx[k]` |
| Transpositions.TransposedRoundTrip | src/cipher/transpos/block_transpos.rs:37-64 | when the decryption map undoes the encryption map, decrypting an encryption gives the message back |
| Transpositions.InverseUnique | src/util/mod.rs:282-298 | a sequence that undoes a permutation is its inverse |
| Transpositions.LeftInverse | src/cipher/transpos/block_transpos.rs:12-33 | index maps that undo each other are permutations, each the inverse of the other |
| Transpositions.OrderOfPermutation | src/util/mod.rs:282-298 | `find_order` of a key that is already a column order is the key itself |
| Transpositions.MembersCount | src/util/mod.rs:282-298 | a group has as many members before `c` as the key has entries of that value there |
| Transpositions.MembersAt | src/util/mod.rs:282-298 | a member of a group is listed after the members before it |
| Transpositions.ListedLength | src/util/mod.rs:282-298 | the listing of the groups below `g` has one entry per key entry below `g` |
| Transpositions.RankSplit | src/util/mod.rs:282-298 | the rank `find_order` gives counts the smaller keys and then the equal keys before |
| Transpositions.ListedInGroup | src/util/mod.rs:282-298 | within its own group a position follows the earlier groups and members |
| Transpositions.ListedAtOwn | src/util/mod.rs:282-298 | each position stands at its rank in the listing up to its group |
| Transpositions.ListedAt | src/util/mod.rs:282-298 | every position stands at its rank in the listing |
| Transpositions.ListedInverts | src/util/mod.rs:282-298 | the listing by key value and `find_order` are permutations inverse to each other |
| Transpositions.FirstBestSnoc | src/cipher/transpos/mod.rs:75-78 | a strictly better score becomes the first best; anything else keeps the old one |
| Transpositions.FirstBestStep | src/cipher/transpos/mod.rs:31-32 | the running best started at `f64::MIN` holds the first best after every score |
| Transpositions.Kept | src/cipher/transpos/railfence.rs:130-147 | the running best is `f64::MIN` while every score is `f64::MIN`, and otherwise the first best score (definition; see Transpositions.KeptSnoc) |
| Transpositions.KeptSnoc | src/cipher/transpos/railfence.rs:142-145 | a score strictly above the running best becomes the first best; any other, `f64::MIN` included, keeps the old running best |
| Transpositions.KeptCount | src/cipher/transpos/railfence.rs:130-147 | after trying the counts 2, 3, ..., the kept count is the first best while some score has risen above `f64::MIN`, and still the one `solve` began with while none has (definition; see Transpositions.KeptCountSnoc) |
| Transpositions.KeptCountSnoc | src/cipher/transpos/railfence.rs:142-145 | the next count's trial replaces the kept count only on a strictly higher score |
| Transpositions.KeptCountOutcome | src/cipher/transpos/railfence.rs:130-147 | once some score has risen above `f64::MIN` the kept count is the first best count; while none has, it is still the one `solve` began with |
| Transpositions.LinkAbove | src/cipher/transpos/mod.rs:49-57 | a sum of `r` bigram scores is at least `r` times the lowest score |
| Transpositions.LinkAboveMin | src/cipher/transpos/mod.rs:45-59 | every total the search compares lies above `f64::MIN` |
| Transpositions.UnusedExists | src/cipher/transpos/mod.rs:48 | while the key is short an unused column exists |
| Transpositions.RowTotal | src/cipher/transpos/mod.rs:49-57 | the inner row loop sums the bigram scores of two columns |
| Transpositions.BestColumn | src/cipher/transpos/mod.rs:43-63 | one greedy step keeps the lowest unused column with the largest total after the last column |
| Transpositions.GreedyKey | src/cipher/transpos/mod.rs:40-66 | the `while` loop builds a permutation of the columns from the start column, each the best unused one |
| Transpositions.KeyOrderOf | src/util/mod.rs:282-298 | `find_order` of a non-empty keyword is a column order of its length |
| Transpositions.TriedSnoc | src/cipher/transpos/mod.rs:39-79 | appending a greedy key and its score keeps the record of trials |
| Transpositions.TryStarts | src/cipher/transpos/mod.rs:39-79 | one key length tries one greedy key per start column and keeps the running first best |
| Transpositions.TranspositionSolve | src/cipher/transpos/mod.rs:18-83 | every key length in `min(3, len)..min(15, len)` and start column is tried in order; up to 3 letters give no key, else the key of the first best trial |
| Transpositions.Transposed | src/cipher/transpos/block_transpos.rs:37-50 | the `k`-th letter takes the code point of letter `idx[k]` in its own case, non-letters stay (definition; see Transpositions.TransposedLetters) |
| Transpositions.Members | src/util/mod.rs:282-298 | the positions of one key value before a bound, left to right (definition; see Transpositions.MembersCount) |
| Transpositions.Listed | src/util/mod.rs:282-298 | the positions grouped by key value, smaller values first (definition; see Transpositions.ListedInverts) |
| Transpositions.ScoreAbove | src/cipher/transpos/mod.rs:31 | the scorer rates every sequence above `f64::MIN` (definition; see Transpositions.FirstBestStep) |
| Transpositions.FirstBest | src/cipher/transpos/mod.rs:75-78 | the running best updated on a strict `>` ends at a largest score with every earlier score smaller (definition; see Transpositions.FirstBestSnoc) |
| Transpositions.ReadsInside | src/cipher/transpos/mod.rs:52-53 | `get_index` sends every cell of the grid into the ciphertext (definition; see Transpositions.GreedyKey) |
| Transpositions.BigramReady | src/cipher/transpos/mod.rs:56 | code points below 32 and a 32 by 32 bigram table, so that `c1 * 32 + c2` indexes it (definition; see Transpositions.RowTotal) |
| Transpositions.GridOk | src/cipher/transpos/mod.rs:51-53 | every cell the search reads lies in the ciphertext (definition; see Transpositions.GreedyKey) |
| Transpositions.Link | src/cipher/transpos/mod.rs:49-57 | the bigram score of one column followed by another over the first rows (definition; see Transpositions.RowTotal) |
| Transpositions.BigramsAbove | src/cipher/transpos/mod.rs:45-59 | every bigram score is at least a bound and a ciphertext's worth of them stays above `f64::MIN` (definition; see Transpositions.LinkAboveMin) |
| Transpositions.RowsBelowLength | src/cipher/transpos/mod.rs:45-59 | the sums over fewer rows than the ciphertext length stay above `f64::MIN` too |
| Transpositions.RowsFit | src/cipher/transpos/mod.rs:37 | `len / key_len` whole rows of `key_len` columns fit in the ciphertext |
| Transpositions.RowsWithin | src/cipher/transpos/mod.rs:37 | there are never more rows than letters |
| Transpositions.Cell | src/cipher/transpos/mod.rs:52-53 | cell `(r, c)` of a row-major grid is entry `r * k + c`, inside the grid, and that entry gives the cell back |
| Transpositions.CellBack | src/cipher/transpos/mod.rs:52-53 | entry `r * k + c` lies in row `r`, column `c` |
| Transpositions.CellInside | src/cipher/transpos/mod.rs:52-53 | entry `r * k + c` lies inside the grid |
| Transpositions.CellOf | src/cipher/transpos/mod.rs:52-53 | entry `p` lies in row `p / k` and column `p % k` |
| Transpositions.ScaledDown | src/cipher/transpos/mod.rs:45-59 | a total of fewer bounded sums stays above `f64::MIN` when a larger count does |
| Transpositions.BestNext | src/cipher/transpos/mod.rs:45-63 | the unused column with the largest total after the last one, the lowest on a tie (definition; see Transpositions.BestColumn) |
| Transpositions.Greedy | src/cipher/transpos/mod.rs:40-66 | a permutation of the columns from the start column, each later one the best unused after its predecessor (definition; see Transpositions.GreedyKey) |
| Transpositions.GrownPrefix | src/cipher/transpos/mod.rs:65 | pushing a column keeps the key's earlier entries |
| Transpositions.Schedule | src/cipher/transpos/mod.rs:35-39 | the key lengths and start columns the search tries, in order (definition; see Transpositions.TranspositionSolve) |
| Transpositions.KeyOrder | src/util/mod.rs:282-298 | a column order of a non-empty keyword (definition; see Transpositions.KeyOrderOf) |
| Transpositions.IndexMaker | src/cipher/transpos/mod.rs:68-73 | the decryption index maps give one ciphertext position per position for every permutation key (definition; see Transpositions.TranspositionSolve) |
| Transpositions.GridFor | src/cipher/transpos/mod.rs:37 | the ciphertext laid out for one key length with `len / key_len` whole rows (definition; see Transpositions.TryStarts) |
| Transpositions.Tried | src/cipher/transpos/mod.rs:39-79 | each trial is the greedy key for its length and start column, scored by the decryption it gives (definition; see Transpositions.TriedSnoc) |
| Transpositions.Running | src/cipher/transpos/mod.rs:31-32 | the running best: `f64::MIN` and the empty key before any trial, then the first best trial's score and key (definition; see Transpositions.TryStarts) |
| Railfence.ZigZagInside | src/cipher/transpos/railfence.rs:19-28 | with at least two rails the zig-zag walk stays on the rails, heading down from rail 0 and up from the last rail |
| Railfence.FlatIndexInside | src/cipher/transpos/railfence.rs:13-23 | the cell `row * len + col` of a column lies inside the `n * len` matrix exactly when the row is one of the `n` rails |
| Railfence.OneRailOverruns | src/cipher/transpos/railfence.rs:19-28 | as written, one rail sends column 1 to row 1, past the one-rail matrix, so any message of two or more letters indexes out of bounds |
| Railfence.ManyRailsInside | src/cipher/transpos/railfence.rs:19-28 | with two rails or more the walk as written never leaves the matrix |
| Railfence.Rail | src/cipher/transpos/railfence.rs:19-28 | the rail a column is written on is one of the `n` rails |
| Railfence.RailKeys | src/cipher/transpos/railfence.rs:19-28 | one rail per column of the message, each within the rails |
| Railfence.Orders | src/cipher/transpos/railfence.rs:12-82 | both index maps are permutations of the message positions, each the inverse of the other |
| Railfence.OneRailIdentity | src/cipher/transpos/railfence.rs:12-82 | on the corrected walk a single rail makes both index maps the identity, so the cipher leaves the message as it is |
| Railfence.MarkWalk | src/cipher/transpos/railfence.rs:19-28 | the first walk writes a mark in exactly the cell of each column's rail, leaving -1 elsewhere |
| Railfence.CollectRails | src/cipher/transpos/railfence.rs:30-37 | reading the matrix rail by rail collects the columns in rail order |
| Railfence.EncryptIndexes | src/cipher/transpos/railfence.rs:12-40 | `encrypt_indexes` lists the columns rail by rail |
| Railfence.NumberStep | src/cipher/transpos/railfence.rs:59-68 | a column's number is the count of columns on the rails above plus those before it on its own rail |
| Railfence.NumberRails | src/cipher/transpos/railfence.rs:59-68 | the second pass numbers every marked cell with its column's place in the rail-by-rail listing |
| Railfence.ReadWalk | src/cipher/transpos/railfence.rs:70-79 | the read-back walk collects each column's place in the listing, in column order |
| Railfence.DecryptIndexes | src/cipher/transpos/railfence.rs:41-82 | `decrypt_indexes` gives each column its place in the rail-by-rail listing |
| Railfence.RoundTrip | src/cipher/transpos/railfence.rs:86-111 | decryption undoes encryption and encryption undoes decryption for any number of rails |
| Railfence.NonLettersStay | src/cipher/transpos/railfence.rs:86-98 | encryption keeps the length, keeps every non-letter in place and keeps each letter's case |
| Railfence.Railfence.constructor | src/cipher/transpos/railfence.rs:115-117 | a new cipher has one rail |
| Railfence.Railfence.Reset | src/cipher/transpos/railfence.rs:118-120 | reset goes back to one rail |
| Railfence.Railfence.Randomize | src/cipher/transpos/railfence.rs:121-123 | randomize picks the drawn number of rails, from 1 to 19 |
| Railfence.Railfence.Encrypt | src/cipher/transpos/railfence.rs:86-98 | encryption moves the letters by `encrypt_indexes` and keeps everything else |
| Railfence.Railfence.Decrypt | src/cipher/transpos/railfence.rs:99-111 | decryption moves the letters by `decrypt_indexes` and keeps everything else |
| Railfence.TryRails | src/cipher/transpos/railfence.rs:136-140 | one trial scores the ciphertext read back through `decrypt_indexes` |
| Railfence.BestRails | src/cipher/transpos/railfence.rs:130-148 | the loop tries 2 to 49 rails and keeps the first count with the highest score, or the count it started with when every score is `f64::MIN` |
| Railfence.Railfence.Solve | src/cipher/transpos/railfence.rs:130-148 | solve stores the first best-scoring number of rails among 2 to 49, and keeps its number of rails when every score is `f64::MIN` |
| Railfence.Stepped | src/cipher/transpos/railfence.rs:24-27 | one column of the walk: turn on rail 0 or the last rail, then move (definition; see Railfence.ZigZagInside) |
| Railfence.ZigZag | src/cipher/transpos/railfence.rs:19-28 | the walk as written, `(row, increment)` at each column (definition; see Railfence.OneRailOverruns) |
| Railfence.Overruns | src/cipher/transpos/railfence.rs:13-23 | some column's cell falls outside the `num_rails * len` matrix (definition; see Railfence.OneRailOverruns) |
| Railfence.Walk | src/cipher/transpos/railfence.rs:19-28 | the corrected walk, on which a single rail stays on rail 0 (definition; see Railfence.ManyRailsInside) |
| Railfence.EncryptOrder | src/cipher/transpos/railfence.rs:12-40 | `encrypt_indexes`: the columns listed rail by rail (definition; see Railfence.Orders) |
| Railfence.DecryptOrder | src/cipher/transpos/railfence.rs:41-82 | `decrypt_indexes`: each column's place in the rail-by-rail listing (definition; see Railfence.Orders) |
| Railfence.CountEqAll | src/cipher/transpos/railfence.rs:59-68 | a matrix entry count over all-zero places counts every place |
| Railfence.Marked | src/cipher/transpos/railfence.rs:22-28 | after the first columns of the walk, each column's cell holds its mark and every other cell -1 (definition; see Railfence.MarkWalk) |
| Railfence.Numbered | src/cipher/transpos/railfence.rs:59-68 | cells on the zig-zag hold their place in the rail-by-rail listing once numbered and -2 before, others -1 (definition; see Railfence.NumberRails) |
| Railfence.Encrypted | src/cipher/transpos/railfence.rs:86-98 | `encrypt` with `n` rails (definition; see Railfence.RoundTrip) |
| Railfence.Decrypted | src/cipher/transpos/railfence.rs:99-111 | `decrypt` with `n` rails (definition; see Railfence.RoundTrip) |
| Railfence.RailScore | src/cipher/transpos/railfence.rs:136-141 | the score `solve` gives a rail count: the scorer on the ciphertext read through `decrypt_indexes` (definition; see Railfence.BestRails) |
| Scytale.Face | src/cipher/transpos/scytale.rs:16-17 | the face letter `i` lands on is one of the `f` faces |
| Scytale.FaceIsMod | src/cipher/transpos/scytale.rs:16-17 | letter `i` lands on face `i mod f` |
| Scytale.Faces | src/cipher/transpos/scytale.rs:16-17 | one face per letter of the message, each one of the `f` faces |
| Scytale.SameFace | src/cipher/transpos/scytale.rs:16-17 | two letters on the same face lie at least `f` apart |
| Scytale.FaceStartsAt | src/cipher/transpos/scytale.rs:17 | face `g` holds no letter before letter `g` |
| Scytale.FaceStep | src/cipher/transpos/scytale.rs:17 | after letter `i`, the next letter on its face is letter `i + f` |
| Scytale.FaceRank | src/cipher/transpos/scytale.rs:12-24 | a letter's place in the reading follows the faces before its own and the letters before it on its face |
| Scytale.Orders | src/cipher/transpos/scytale.rs:12-37 | both index maps are permutations of the message positions, each the inverse of the other |
| Scytale.FaceStride | src/cipher/transpos/scytale.rs:17 | from any letter of a face on, the rest of the face is the `step_by(f)` stride from that letter |
| Scytale.FaceIsStride | src/cipher/transpos/scytale.rs:17 | face `g` is exactly the letters `(g..len).step_by(f)` |
| Scytale.StrideStep | src/cipher/transpos/scytale.rs:17 | one step of the `step_by` walk moves one letter from the stride still to come to the letters visited |
| Scytale.FacePlace | src/cipher/transpos/scytale.rs:16-20 | the counter `idx` at letter `i` is that letter's place in the face-by-face reading |
| Scytale.FaceDone | src/cipher/transpos/scytale.rs:16-21 | at the end of a face the letters visited are the whole face |
| Scytale.RankedNext | src/cipher/transpos/scytale.rs:17-19 | numbering one letter of a face moves the numbered part on to the next letter of that face |
| Scytale.NumberFace | src/cipher/transpos/scytale.rs:17-20 | the inner loop numbers every letter of one face by its place in the reading |
| Scytale.EncryptIndexes | src/cipher/transpos/scytale.rs:12-24 | `encrypt_indexes` gives each letter its place in the face-by-face reading; with no faces every entry stays 0 |
| Scytale.ListFace | src/cipher/transpos/scytale.rs:30-33 | the inner loop appends the letters of one face to the listing |
| Scytale.DecryptIndexes | src/cipher/transpos/scytale.rs:25-37 | `decrypt_indexes` lists the letters face by face; with no faces every entry stays 0 |
| Scytale.RoundTrip | src/cipher/transpos/scytale.rs:41-66 | decryption undoes encryption and encryption undoes decryption for any number of faces |
| Scytale.NonLettersStay | src/cipher/transpos/scytale.rs:41-53 | encryption keeps the length, keeps every non-letter in place and keeps each letter's case |
| Scytale.TryFaces | src/cipher/transpos/scytale.rs:91-96 | one trial scores the ciphertext read back through `decrypt_indexes` |
| Scytale.BestFaces | src/cipher/transpos/scytale.rs:85-103 | the loop tries 2 to 49 faces and keeps the first count with the highest score, or the count it started with when every score is `f64::MIN` |
| Scytale.Scytale.constructor | src/cipher/transpos/scytale.rs:70-72 | a new scytale has two faces |
| Scytale.Scytale.Reset | src/cipher/transpos/scytale.rs:73-75 | reset goes back to two faces |
| Scytale.Scytale.Randomize | src/cipher/transpos/scytale.rs:76-78 | randomize picks the drawn number of faces, from 2 to 14 |
| Scytale.Scytale.Encrypt | src/cipher/transpos/scytale.rs:41-53 | encryption moves the letters by `encrypt_indexes` and keeps everything else |
| Scytale.Scytale.Decrypt | src/cipher/transpos/scytale.rs:54-66 | decryption moves the letters by `decrypt_indexes` and keeps everything else |
| Scytale.Scytale.Solve | src/cipher/transpos/scytale.rs:85-103 | solve stores the first best-scoring number of faces among 2 to 49, and keeps its number of faces when every score is `f64::MIN` |
| Scytale.Stride | src/cipher/transpos/scytale.rs:17 | the letters `(row..len).step_by(num_faces)` visits (definition; see Scytale.FaceIsStride) |
| Scytale.EncryptOrder | src/cipher/transpos/scytale.rs:12-24 | `encrypt_indexes`: each letter's place in the face-by-face reading (definition; see Scytale.Orders) |
| Scytale.DecryptOrder | src/cipher/transpos/scytale.rs:25-37 | `decrypt_indexes`: the letters listed face by face (definition; see Scytale.Orders) |
| Scytale.RankedBelow | src/cipher/transpos/scytale.rs:16-20 | letters on the faces done, and those of the current face so far, hold their place; the rest hold 0 (definition; see Scytale.NumberFace) |
| Scytale.Encrypted | src/cipher/transpos/scytale.rs:41-53 | `encrypt` with `f` faces (definition; see Scytale.RoundTrip) |
| Scytale.Decrypted | src/cipher/transpos/scytale.rs:54-66 | `decrypt` with `f` faces (definition; see Scytale.RoundTrip) |
| Scytale.FaceScore | src/cipher/transpos/scytale.rs:91-96 | the score `solve` gives a face count (definition; see Scytale.BestFaces) |
| BlockTransposition.OrdersInRange | src/cipher/transpos/block_transpos.rs:12-33 | every entry of both index maps points inside the message, tail included |
| BlockTransposition.Orders | src/cipher/transpos/block_transpos.rs:12-33 | on whole rows both index maps are permutations, each the inverse of the other, and each keeps every letter within its own row |
| BlockTransposition.EncryptIndexes | src/cipher/transpos/block_transpos.rs:12-22 | `encrypt_indexes` puts at column `key_order[c]` of each whole row the letter of column `c`, and 0 past the whole rows |
| BlockTransposition.DecryptIndexes | src/cipher/transpos/block_transpos.rs:23-33 | `decrypt_indexes` reads at column `c` of each whole row the letter of column `key_order[c]`, and 0 past the whole rows |
| BlockTransposition.RoundTrip | src/cipher/transpos/block_transpos.rs:37-64 | on a message whose letters fill whole rows, decryption undoes encryption and encryption undoes decryption |
| BlockTransposition.UnevenTail | src/cipher/transpos/block_transpos.rs:37-50 | encryption keeps the length, the non-letters and each letter's case, and every letter past the last whole row takes the first letter's code point |
| BlockTransposition.SolverReady | src/cipher/transpos/block_transpos.rs:96-105 | the grid cell `row * key_len + col` always lies inside the grid, and `decrypt_indexes` is an index map for every key order |
| BlockTransposition.BlockTransposition.constructor | src/cipher/transpos/block_transpos.rs:68-80 | a new cipher has the identity keyword `[0]` |
| BlockTransposition.BlockTransposition.Reset | src/cipher/transpos/block_transpos.rs:81-83 | reset puts the keyword back to `[0]` |
| BlockTransposition.BlockTransposition.Randomize | src/cipher/transpos/block_transpos.rs:84-86 | randomize sets a keyword of 3 to 11 drawn letters |
| BlockTransposition.BlockTransposition.Encrypt | src/cipher/transpos/block_transpos.rs:37-50 | encryption moves the letters by `encrypt_indexes` of the keyword's `find_order` |
| BlockTransposition.BlockTransposition.Decrypt | src/cipher/transpos/block_transpos.rs:51-64 | decryption moves the letters by `decrypt_indexes` of the keyword's `find_order` |
| BlockTransposition.BlockTransposition.Solve | src/cipher/transpos/block_transpos.rs:96-105 | the keyword becomes the first best-scoring key `transposition_solve` tries over the rows, a column order that is its own `find_order`; empty for three letters or fewer |
| BlockTransposition.EncryptOrder | src/cipher/transpos/block_transpos.rs:12-22 | `encrypt_indexes` has one entry per letter (definition of the entries; see BlockTransposition.Orders) |
| BlockTransposition.DecryptOrder | src/cipher/transpos/block_transpos.rs:23-33 | `decrypt_indexes` has one entry per letter (definition of the entries; see BlockTransposition.Orders) |
| BlockTransposition.EncFilled | src/cipher/transpos/block_transpos.rs:15-19 | the partial state of `encrypt_indexes` after some columns and rows (definition; see BlockTransposition.EncStep) |
| BlockTransposition.EncEntry | src/cipher/transpos/block_transpos.rs:15-19 | one entry of that partial state (definition; see BlockTransposition.EncStep) |
| BlockTransposition.EncStep | src/cipher/transpos/block_transpos.rs:17 | the write at row `row` of column `col` lands inside the vector and extends the filled part by that one entry |
| BlockTransposition.EncColumnDone | src/cipher/transpos/block_transpos.rs:15-16 | the last row of a column written, the next column starts from row 0 |
| BlockTransposition.EncColumnCell | src/cipher/transpos/block_transpos.rs:15-19 | each entry of a state whose columns up to `col` are done is the entry of that state |
| BlockTransposition.EncStart | src/cipher/transpos/block_transpos.rs:13 | the zeroed vector is the state with nothing written |
| BlockTransposition.EncDone | src/cipher/transpos/block_transpos.rs:15-21 | with every column written the vector is `encrypt_indexes` |
| BlockTransposition.DecFilled | src/cipher/transpos/block_transpos.rs:26-30 | the partial state of `decrypt_indexes` after some columns and rows (definition; see BlockTransposition.DecStep) |
| BlockTransposition.DecEntry | src/cipher/transpos/block_transpos.rs:26-30 | one entry of that partial state (definition; see BlockTransposition.DecStep) |
| BlockTransposition.DecStep | src/cipher/transpos/block_transpos.rs:28 | the write at row `row` of column `col` lands inside the vector and extends the filled part by that one entry |
| BlockTransposition.DecColumnDone | src/cipher/transpos/block_transpos.rs:26-27 | the last row of a column written, the next column starts from row 0 |
| BlockTransposition.DecColumnCell | src/cipher/transpos/block_transpos.rs:26-30 | each entry of a state whose columns up to `col` are done is the entry of that state |
| BlockTransposition.Encrypted | src/cipher/transpos/block_transpos.rs:37-50 | `encrypt` with key order `ko` (definition; see BlockTransposition.RoundTrip) |
| BlockTransposition.Decrypted | src/cipher/transpos/block_transpos.rs:51-64 | `decrypt` with key order `ko` (definition; see BlockTransposition.RoundTrip) |
| BlockTransposition.BlockCell | src/cipher/transpos/block_transpos.rs:102 | the cell the solver reads for a row and column (definition; see BlockTransposition.SolverReady) |
| ColumnTransposition.OrdersInRange | src/cipher/transpos/column_transpos.rs:12-33 | every entry of both index maps points inside the message, tail included |
| ColumnTransposition.ColumnsInKeyOrder | src/cipher/transpos/column_transpos.rs:15-18 | column `c` of the grid, read top to bottom, becomes block `key_order[c]` of the ciphertext, and back |
| ColumnTransposition.Orders | src/cipher/transpos/column_transpos.rs:12-33 | on whole rows both index maps are permutations, each the inverse of the other |
| ColumnTransposition.EncryptIndexes | src/cipher/transpos/column_transpos.rs:12-22 | `encrypt_indexes` fills block `key_order[c]` with column `c` of the whole rows, and 0 past them |
| ColumnTransposition.DecryptIndexes | src/cipher/transpos/column_transpos.rs:23-33 | `decrypt_indexes` reads column `c` of each whole row from block `key_order[c]`, and 0 past the whole rows |
| ColumnTransposition.RoundTrip | src/cipher/transpos/column_transpos.rs:37-65 | on a message whose letters fill whole rows, decryption undoes encryption and encryption undoes decryption |
| ColumnTransposition.UnevenTail | src/cipher/transpos/column_transpos.rs:37-50 | encryption keeps the length, the non-letters and each letter's case, and every letter past the last whole row takes the first letter's code point |
| ColumnTransposition.SolverReady | src/cipher/transpos/column_transpos.rs:90-99 | the grid cell `col * num_rows + row` always lies inside the grid, and `decrypt_indexes` is an index map for every key order |
| ColumnTransposition.ColumnTransposition.constructor | src/cipher/transpos/column_transpos.rs:69-80 | a new cipher has the identity keyword `[0]` |
| ColumnTransposition.ColumnTransposition.Encrypt | src/cipher/transpos/column_transpos.rs:37-50 | encryption moves the letters by `encrypt_indexes` of the keyword's `find_order` |
| ColumnTransposition.ColumnTransposition.Decrypt | src/cipher/transpos/column_transpos.rs:51-65 | decryption moves the letters by `decrypt_indexes` of the keyword's `find_order` |
| ColumnTransposition.ColumnTransposition.Solve | src/cipher/transpos/column_transpos.rs:90-99 | the keyword becomes the first best-scoring key `transposition_solve` tries over the columns, a column order that is its own `find_order`; empty for three letters or fewer |
| ColumnTransposition.EncryptEntry | src/cipher/transpos/column_transpos.rs:15-19 | one entry of `encrypt_indexes` (definition; see ColumnTransposition.Orders) |
| ColumnTransposition.EncryptOrder | src/cipher/transpos/column_transpos.rs:12-22 | `encrypt_indexes` has one entry per letter (definition of the entries; see ColumnTransposition.Orders) |
| ColumnTransposition.DecryptOrder | src/cipher/transpos/column_transpos.rs:23-33 | `decrypt_indexes` has one entry per letter (definition of the entries; see ColumnTransposition.Orders) |
| ColumnTransposition.EncFilled | src/cipher/transpos/column_transpos.rs:15-19 | the partial state of `encrypt_indexes` after some columns and rows (definition; see ColumnTransposition.EncStep) |
| ColumnTransposition.EncEntry | src/cipher/transpos/column_transpos.rs:15-19 | one entry of that partial state (definition; see ColumnTransposition.EncStep) |
| ColumnTransposition.EncStep | src/cipher/transpos/column_transpos.rs:17 | the write at row `row` of column `col` lands inside the vector and extends the filled part by that one entry |
| ColumnTransposition.EncColumnDone | src/cipher/transpos/column_transpos.rs:15-16 | the last row of a column written, the next column starts from row 0 |
| ColumnTransposition.EncColumnCell | src/cipher/transpos/column_transpos.rs:15-19 | each entry of a state whose columns up to `col` are done is the entry of that state |
| ColumnTransposition.EncStart | src/cipher/transpos/column_transpos.rs:13 | the zeroed vector is the state with nothing written |
| ColumnTransposition.EncDone | src/cipher/transpos/column_transpos.rs:15-21 | with every column written the vector is `encrypt_indexes` |
| ColumnTransposition.DecFilled | src/cipher/transpos/column_transpos.rs:26-30 | the partial state of `decrypt_indexes` after some columns and rows (definition; see ColumnTransposition.DecStep) |
| ColumnTransposition.DecEntry | src/cipher/transpos/column_transpos.rs:26-30 | one entry of that partial state (definition; see ColumnTransposition.DecStep) |
| ColumnTransposition.DecStep | src/cipher/transpos/column_transpos.rs:28 | the write at row `row` of column `col` lands inside the vector and extends the filled part by that one entry |
| ColumnTransposition.DecColumnDone | src/cipher/transpos/column_transpos.rs:26-27 | the last row of a column written, the next column starts from row 0 |
| ColumnTransposition.DecColumnCell | src/cipher/transpos/column_transpos.rs:26-30 | each entry of a state whose columns up to `col` are done is the entry of that state |
| ColumnTransposition.Encrypted | src/cipher/transpos/column_transpos.rs:37-50 | `encrypt` with key order `ko` (definition; see ColumnTransposition.RoundTrip) |
| ColumnTransposition.Decrypted | src/cipher/transpos/column_transpos.rs:51-65 | `decrypt` with key order `ko` (definition; see ColumnTransposition.RoundTrip) |
| ColumnTransposition.ColumnCell | src/cipher/transpos/column_transpos.rs:96 | the cell the solver reads for a row and column (definition; see ColumnTransposition.SolverReady) |
| Primes.LeastFactorFrom | src/util/prime_gen.rs:34-40 | the least divisor of `n` from `d` on lies between `d` and `n` |
| Primes.LeastFactorFromProps | src/util/prime_gen.rs:34-40 | when nothing below `d` divides `n`, the least divisor from `d` on divides `n` and nothing below it does |
| Primes.LeastFactor | src/util/prime_gen.rs:34-40 | the smallest factor above 1 lies between 2 and `n` |
| Primes.LeastFactorDivides | src/util/prime_gen.rs:34-40 | the smallest factor divides `n` and no number between 2 and it does |
| Primes.LeastFactorProps | src/util/prime_gen.rs:34-40 | the smallest factor is prime, equals `n` exactly when `n` is prime, and otherwise its square is at most `n` |
| Primes.LeastFactorPrime | src/util/prime_gen.rs:34-40 | the smallest factor above 1 is prime |
| Primes.LeastFactorSquare | src/util/prime_gen.rs:64-69 | a composite number has a factor whose square is at most the number |
| Primes.QuotientFactor | src/util/prime_gen.rs:36-39 | dividing out the smallest factor leaves a smaller cofactor with no smaller factor |
| Primes.FactorizationProps | src/util/prime_gen.rs:26-45 | the factors are primes in ascending order whose product is the number, the first one its smallest factor |
| Primes.DivideOut | src/util/prime_gen.rs:36-39 | dividing out the smallest prime factor puts it at the head of the factor list |
| Primes.Listed | src/util/prime_gen.rs:57-79 | every prime up to the last one found is in the list |
| Primes.RejectsIffComposite | src/util/prime_gen.rs:64-72 | past the last known prime, with no prime in between, the trial-division test rejects a number exactly when it is composite |
| Primes.RejectedComposite | src/util/prime_gen.rs:64-72 | a number the test rejects is composite |
| Primes.CompositeRejected | src/util/prime_gen.rs:64-72 | a composite number with no prime between it and the last known prime is rejected |
| Primes.EuclidBound | src/util/prime_gen.rs:62-73 | one more than the product of the known primes lies past them and passes the test, so the search always stops |
| Primes.Rejected | src/util/prime_gen.rs:65-69 | the `take_while(...).any(...)` test is true exactly when a known prime up to the ceiling square root divides the number |
| Primes.NextPrimeAfter | src/util/prime_gen.rs:61-73 | the inner loop returns the first prime after the last known prime |
| Primes.Extend | src/util/prime_gen.rs:74 | pushing that prime keeps the list the first primes in order |
| Primes.AtLeastNext | src/util/prime_gen.rs:57-79 | a prime past entry `k - 1` is at least entry `k`, since the list skips no prime |
| Primes.DivideOutAll | src/util/prime_gen.rs:36-39 | the inner loop of `factor` divides the prime out as often as it goes, keeping the factors found plus those left equal to the whole factorization |
| Primes.NextBelowFactor | src/util/prime_gen.rs:34-40 | the next prime tried is at most the smallest factor still left |
| Primes.PrimeGen.constructor | src/util/prime_gen.rs:48-55 | a default generator knows only 2 and starts there |
| Primes.PrimeGen.Reset | src/util/prime_gen.rs:16-18 | reset sends the cursor back to 2 and keeps the primes found |
| Primes.PrimeGen.Next | src/util/prime_gen.rs:57-79 | `next` returns the prime at the cursor, advances it, and only ever extends the list of the first primes |
| Primes.PrimeGen.Round | src/util/prime_gen.rs:35-39 | one turn of `factor`'s outer loop takes the next prime and divides it out as often as it goes |
| Primes.PrimeGen.Factor | src/util/prime_gen.rs:26-45 | `factor` returns `[num]` for 0 and 1 and the ascending prime factorization otherwise, and puts the cursor back |
| Primes.PrimeByTrial | src/util/prime_gen.rs:64-72 | trial division up to a bound whose square exceeds the number proves it prime |
| Primes.NextIs | src/util/prime_gen.rs:57-79 | each entry of the list is the first prime past the one before it |
| Primes.FirstTenPrimes | src/util/prime_gen.rs:96-109 | the first ten entries of the list are 2, 3, 5, 7, 11, 13, 17, 19, 23, 29 |
| Primes.FirstTen | src/util/prime_gen.rs:96-109 | ten `next` calls on a fresh generator return 2, 3, 5, 7, 11, 13, 17, 19, 23, 29 |
| Primes.FactorExamples | src/util/prime_gen.rs:86-93 | 1234 factors as [2, 617], 100 as [2, 2, 5, 5], 1 as [1] and 0 as [0] |
| Primes.IsPrime | src/util/prime_gen.rs:1-2 | a number at least 2 with no divisor strictly between 1 and itself (definition; see Primes.LeastFactorPrime) |
| Primes.NoPrimeBetween | src/util/prime_gen.rs:57-79 | no prime lies strictly between two numbers (definition; see Primes.NextPrimeAfter) |
| Primes.Consecutive | src/util/prime_gen.rs:8-10 | `primes` holds the first primes without a gap, in ascending order (definition; see Primes.PrimeGen.Next) |
| Primes.Factorization | src/util/prime_gen.rs:34-40 | the prime factors of a number of at least 2, smallest first (definition; see Primes.FactorizationProps) |
| Primes.Product | src/util/prime_gen.rs:26-45 | the product of a list of factors (definition; see Primes.FactorizationProps) |
| Primes.FactorOf | src/util/prime_gen.rs:26-45 | `factor`: `[num]` for 0 and 1, the prime factors otherwise (definition; see Primes.PrimeGen.Factor) |
| Primes.Rejects | src/util/prime_gen.rs:64-69 | `next`'s test refuses a candidate when a known prime up to its rounded-up square root divides it (definition; see Primes.RejectsIffComposite) |
| Primes.PrimeGen.Valid | src/util/prime_gen.rs:3-11 | `primes` is the list of the first primes and `prime_idx` points into it (invariant kept by Primes.PrimeGen.Next and Primes.PrimeGen.Factor) |
| Primes.NoFactorIn | src/util/prime_gen.rs:96-109 | trial division over a range, computed (definition; see Primes.NoFactorInMeans) |
| Primes.NoFactorInMeans | src/util/prime_gen.rs:96-109 | when the computed trial division finds no divisor in the range, no number of the range divides |
| Primes.SmallPrimes | src/util/prime_gen.rs:99-108 | 3, 5, 7, ..., 29 are prime, which `prime_gen_test` expects |
| Primes.SmallGaps | src/util/prime_gen.rs:99-108 | no prime lies between consecutive entries of 2, 3, 5, ..., 29 |
| Convert.ToString | src/convert.rs:1-8 | one character per value, value `i` giving the letter of code `65 + i` while that stays below 256 |
| Convert.FromString | src/convert.rs:9-26 | one value per character, each `u16`, a letter of either case giving its place in the alphabet |
| Convert.LetterValue | src/convert.rs:13-14 | a letter of either case gives a value from 0 to 25 that converts back to its upper-case form |
| Convert.ValuesRoundTrip | src/convert.rs:1-26 | values from 0 to 25 survive the trip to characters and back |
| Convert.LettersRoundTrip | src/convert.rs:1-26 | a string of letters comes back from the round trip upper-cased |
| Convert.ToCharWraps | src/convert.rs:5 | values from 191 to 255 wrap round in the `u8` sum to codes below 65 |
| Convert.SpaceWraps | src/convert.rs:14 | a space wraps round in the `u16` subtraction to 65503 |
| Convert.ExampleLower | src/convert.rs:46-51 | "convert" gives [2, 14, 13, 21, 4, 17, 19] |
| Convert.ExampleUpper | src/convert.rs:53-58 | "CONVERT" gives [2, 14, 13, 21, 4, 17, 19] |
| Convert.ExampleBack | src/convert.rs:32-65 | [2, 14, 13, 21, 4, 17, 19] gives "CONVERT", and the empty string and the empty sequence convert to each other |
| Convert.Upper | src/convert.rs:13 | lower-case ASCII letters become their upper-case forms and every other character is kept |
| Convert.ToChar | src/convert.rs:5 | the character has a code below 256, and it is `65 + i` while the `u8` sum does not wrap |
| Convert.ToValue | src/convert.rs:13-14 | the value fits a `u16`, and for a letter of either case it is its upper-case code minus 65 |
| Cards.IndexOf | src/key/cards.rs:30-31 | the place found holds the card, and no earlier place does (with Cards.IndexFromFirst) |
| Cards.IdentityDeck | src/key/cards.rs:170-175 | the cards 0..54 in order form a deck holding both jokers |
| Cards.JokerShiftedPlayable | src/key/cards.rs:28-43 | a joker shift only rearranges the deck and keeps both jokers |
| Cards.JokerShiftedPosition | src/key/cards.rs:28-43 | the joker ends one place lower, or at place 1 when it was at the bottom |
| Cards.Cards.ShiftJoker | src/key/cards.rs:28-43 | the loop leaves the deck JokerShifted of the old deck |
| Cards.TripleCutPlayable | src/key/cards.rs:47-71 | the triple cut only rearranges the deck |
| Cards.TripleCutBounds | src/key/cards.rs:47-71 | the joker-bounded block moves to places 53-hi..53-lo |
| Cards.TripleCutInvolution | src/key/cards.rs:47-71 | the triple cut applied twice gives the deck back |
| Cards.Cards.TripleCut | src/key/cards.rs:47-71 | the three copies leave the deck TripleCutDeck of the old deck |
| Cards.CountCutProps | src/key/cards.rs:80-95 | the count cut keeps the bottom card, only rearranges, and cutting 53-length undoes it |
| Cards.Cards.CountCut | src/key/cards.rs:80-95 | the corrected copy leaves the deck CountCutDeck of the old deck |
| Cards.CountCutAsWrittenPanics | src/key/cards.rs:91-93 | as written the cut copies 53 cards into 54 places and panics whenever the bottom card is not a joker |
| Cards.OutputCardRange | src/key/cards.rs:99-106 | the output card is between 1 and 53 |
| Cards.StepMultiset | src/key/cards.rs:28-95 | every move only rearranges the deck |
| Cards.PlayMultiset | src/key/cards.rs:28-95 | every sequence of moves only rearranges the deck |
| Cards.RoundsDeck | src/key/cards.rs:115-135 | any number of key_stream rounds keeps a deck a deck |
| Cards.OutputsProps | src/key/cards.rs:115-135 | at most one value per round is written, each a card 1..52 |
| Cards.StreamProps | src/key/cards.rs:115-135 | the stream has the requested length, values 0..52, zero exactly past the written values |
| Cards.Cards.KeyStream | src/key/cards.rs:115-135 | the deck ends at Rounds of the old deck and the result is Stream of the old deck |
| Cards.KeyedConcat | src/key/cards.rs:145-155 | keying with two lists is keying with one after the other |
| Cards.KeyedDeck | src/key/cards.rs:145-155 | keying keeps a deck a deck |
| Cards.Cards.SetCards | src/key/cards.rs:145-155 | the deck ends at Keyed of the old deck with the cards |
| Cards.Cards.SetString | src/key/cards.rs:163-166 | set with a string keys with its letters' code points |
| Cards.CardsFromString | src/key/cards.rs:157-161 | new with a string keys the identity deck with the letters' code points |
| Cards.Cards.Reset | src/key/cards.rs:179-181 | the deck becomes 0..54 |
| Cards.Cards.Randomize | src/key/cards.rs:206-208 | the deck is shuffled by the draws and a deck stays a deck |
| Cards.Deck | src/key/cards.rs:170-175 | 54 cards, each of `0..54` exactly once (definition; see Cards.IdentityDeck) |
| Cards.IndexFrom | src/key/cards.rs:29 | the first place from a start that holds the card, or the deck length; the place found holds it |
| Cards.IndexFromFirst | src/key/cards.rs:29 | no place before the one found holds the card, so a card present is found |
| Cards.DeckIndexOf | src/key/cards.rs:29 | in a deck every card is found at its own place |
| Cards.DeckHasJokers | src/key/cards.rs:50-51 | a full deck holds both jokers, so the `unwrap`s succeed |
| Cards.MultisetDeck | src/key/cards.rs:28-95 | a rearrangement of a deck is a deck |
| Cards.Playable | src/key/cards.rs:29-106 | what the deck operations read: 54 cards in range with both jokers present (definition; see Cards.PlayableJokers) |
| Cards.PlayableJokers | src/key/cards.rs:50-51 | a deck is playable exactly when it has 54 cards in range and both jokers |
| Cards.MultisetPlayable | src/key/cards.rs:28-95 | a rearrangement of a playable deck is playable |
| Cards.JokerShifted | src/key/cards.rs:28-43 | the deck after `shift_joker` keeps 54 cards (definition; see Cards.JokerShiftedPosition) |
| Cards.JokerShiftedMultiset | src/key/cards.rs:28-43 | shifting a joker only rearranges the deck |
| Cards.JokerBounds | src/key/cards.rs:50-54 | the places of the upper and lower joker are ordered and inside the deck |
| Cards.TripleCutDeck | src/key/cards.rs:47-71 | the deck after `triple_cut` keeps 54 cards (definition; see Cards.TripleCutInvolution) |
| Cards.TripleCutParts | src/key/cards.rs:53-68 | the triple cut is the cards below the lower joker, then the joker block, then the cards above |
| Cards.TripleCutMultiset | src/key/cards.rs:47-71 | the triple cut only rearranges the deck |
| Cards.CutAroundEnds | src/key/cards.rs:56-68 | the ends of the joker block land at places `53 - hi` and `53 - lo` |
| Cards.CutAroundTwice | src/key/cards.rs:56-68 | cutting around a block and then around its new place gives the deck back |
| Cards.CountCutDeck | src/key/cards.rs:80-95 | the count cut as intended keeps 54 cards and the bottom card (definition; see Cards.CountCutProps) |
| Cards.CountCutPlayable | src/key/cards.rs:80-95 | the count cut keeps a playable deck playable and only rearranges it |
| Cards.CopyFromSlice | src/key/cards.rs:93 | `copy_from_slice` yields the source only when both slices have one length, and panics otherwise (definition; see Cards.CountCutAsWrittenPanics) |
| Cards.CountCutAsWritten | src/key/cards.rs:80-95 | the count cut as written, copying 53 cards into 54 places (definition; see Cards.CountCutAsWrittenPanics) |
| Cards.OutputCardOf | src/key/cards.rs:99-106 | the output card is at most 53 |
| Cards.Legal | src/key/cards.rs:115-153 | the moves the rounds make: jokers shift, and only `0..53` cards are counted off (definition; see Cards.MovesLegal) |
| Cards.LegalMoves | src/key/cards.rs:115-153 | every move of a list is legal (definition; see Cards.MovesLegal) |
| Cards.Step | src/key/cards.rs:28-95 | one legal move keeps a deck playable |
| Cards.Play | src/key/cards.rs:115-153 | a list of legal moves, first to last, keeps a deck playable |
| Cards.PlaySnoc | src/key/cards.rs:115-153 | playing one more move is one more step after the rest |
| Cards.JokerMovesInOrder | src/key/cards.rs:120-123 | each round starts by shifting the A joker once, the B joker twice, then the triple cut |
| Cards.SetMoves | src/key/cards.rs:146-153 | one keying round of `set`: the joker moves, a count cut by the bottom card, a count cut by the key card (definition; see Cards.Cards.SetRoundStep) |
| Cards.MovesLegal | src/key/cards.rs:115-153 | the rounds of `key_stream` and `set` make only legal moves |
| Cards.KeyRound | src/key/cards.rs:120-127 | one round of `key_stream` keeps a deck playable |
| Cards.Rounds | src/key/cards.rs:119-133 | any number of rounds keeps a deck playable |
| Cards.RoundsSnoc | src/key/cards.rs:119-133 | round `k + 1` is one more round after the first `k` |
| Cards.KeyRoundMultiset | src/key/cards.rs:120-127 | a round only rearranges the deck |
| Cards.RoundsMultiset | src/key/cards.rs:119-133 | any number of rounds only rearranges the deck |
| Cards.Emitted | src/key/cards.rs:128-132 | a round writes at most one value, a card between 1 and 52 |
| Cards.Outputs | src/key/cards.rs:119-133 | the values the first `k` rounds write, in order (definition; see Cards.OutputsProps) |
| Cards.OutputsSnoc | src/key/cards.rs:119-133 | the values of `k + 1` rounds are those of the first `k` followed by what the last round writes |
| Cards.Stream | src/key/cards.rs:115-135 | the returned stream has the requested length |
| Cards.StreamOf | src/key/cards.rs:115-135 | a buffer of the written values followed by zeros is the stream |
| Cards.SetRound | src/key/cards.rs:146-153 | one keying round of `set` keeps a deck playable |
| Cards.KeyCards | src/key/cards.rs:145-155 | every value `set` may key with (definition; see Cards.MovesLegal) |
| Cards.LetterCards | src/key/cards.rs:163-166 | the cards for a string are its letters' code points, all usable as key cards |
| Cards.Keyed | src/key/cards.rs:145-155 | keying with a list of cards keeps a deck playable |
| Cards.KeyedMultiset | src/key/cards.rs:145-155 | keying only rearranges the deck |
| Cards.CopyRange | src/key/cards.rs:56-68 | one copying loop appends the slice to what the buffer already holds and returns the next place |
| Cards.CutAround | src/key/cards.rs:48-70 | the three copying loops give the cards below the block, the block, then the cards above |
| Cards.Cards.FromSlice | src/key/cards.rs:139-144 | `new` with a slice holds a copy of it |
| Cards.Cards.Identity | src/key/cards.rs:170-175 | `identity` holds `0..54` in order, a playable deck |
| Cards.Cards.OutputCard | src/key/cards.rs:99-106 | `output_card` on the current deck is the output card of the model |
| Cards.Cards.ShiftJokersAndCut | src/key/cards.rs:120-123 | the three joker shifts and the triple cut leave the deck after the joker moves |
| Cards.Cards.KeyRoundStep | src/key/cards.rs:120-127 | the loop body up to the output card leaves the deck one round on |
| Cards.Cards.SetRoundStep | src/key/cards.rs:147-152 | the body of the `set` loop leaves the deck one keying round on with the card |
| Cards.Cards.WriteOutput | src/key/cards.rs:128-132 | an output card below 53 is written at the next place and nothing else changes |
| Cards.Cards.StreamRound | src/key/cards.rs:119-133 | round `k + 1` moves the deck one round on and writes that round's value after the first `k` |
| Plugboards.Plugboard.constructor | src/key/enigma/plugboard.rs:114-118 | a new plugboard is the identity, an involution with no plug |
| Plugboards.Plugboard.AddPlug | src/key/enigma/plugboard.rs:24-29 | a valid plug swaps the two letters |
| Plugboards.AddPlugProps | src/key/enigma/plugboard.rs:24-29 | a valid plug keeps the involution, makes the plug existing and changes no other letter |
| Plugboards.Plugboard.DelPlug | src/key/enigma/plugboard.rs:38-43 | an existing plug is removed, both letters map to themselves |
| Plugboards.DelPlugProps | src/key/enigma/plugboard.rs:38-43 | removing a plug keeps the involution, frees both letters, changes no other letter |
| Plugboards.PlugRoundTrips | src/key/enigma/plugboard.rs:24-43 | deleting a just-added plug, or re-adding a just-deleted one, restores the board |
| Plugboards.UsedLetterPlugged | src/key/enigma/plugboard.rs:77-92 | a letter is used exactly when it is plugged to the letter it maps to |
| Plugboards.IdentityUnplugged | src/key/enigma/plugboard.rs:114-125 | the reset board is an involution with no used letter |
| Plugboards.Plugboard.Reset | src/key/enigma/plugboard.rs:120-125 | the board becomes 0..26, the identity involution |
| Plugboards.PlugsFromProps | src/key/enigma/plugboard.rs:127-136 | plugging consecutive pairs of a permutation keeps the involution and uses exactly the first 2k letters |
| Plugboards.Plugboard.AddPlugs | src/key/enigma/plugboard.rs:131-135 | the loop adds plugs values[2i]-values[2i+1] for i below the count, keeping the involution |
| Plugboards.Plugboard.Randomize | src/key/enigma/plugboard.rs:127-136 | the board is the plugs of the shuffled letters, an involution |
| Plugboards.Involution | src/key/enigma/plugboard.rs:24-43 | a substitution of the 26 letters that undoes itself, kept by every plug operation (definition; see Plugboards.AddPlugProps) |
| Plugboards.ValidPlug | src/key/enigma/plugboard.rs:63-68 | `is_valid_plug`: both letters unplugged and different (definition; see Plugboards.AddPlugProps) |
| Plugboards.ExistingPlug | src/key/enigma/plugboard.rs:77-82 | `is_existing_plug`: the two letters sent to each other and different (definition; see Plugboards.DelPlugProps) |
| Plugboards.LetterUsed | src/key/enigma/plugboard.rs:90-92 | `is_letter_used`: the letter is sent elsewhere (definition; see Plugboards.UsedLetterPlugged) |
| Plugboards.Plugged | src/key/enigma/plugboard.rs:24-29 | the substitution after `add_plug` keeps its length (entries: see Plugboards.AddPlugProps) |
| Plugboards.Unplugged | src/key/enigma/plugboard.rs:38-43 | the substitution after `del_plug` keeps its length (entries: see Plugboards.DelPlugProps) |
| Plugboards.PlugsFrom | src/key/enigma/plugboard.rs:128-135 | the plugs `randomize` adds from the identity give a 26-letter substitution (entries: see Plugboards.PlugsFromProps) |
| Plugboards.NextPlugValid | src/key/enigma/plugboard.rs:133-135 | with the letters a permutation, each next pair `values[2i]`, `values[2i + 1]` is a valid plug after the earlier ones, so the `debug_assert` of `add_plug` holds |
| Plugboards.ShuffledLetters | src/key/enigma/plugboard.rs:129-131 | the shuffled `0..26` is a permutation of the 26 letters |
| Plugboards.Plugboard.Clone | src/key/enigma/plugboard.rs:10 | the derived `Clone` gives a fresh plugboard with the same substitution |
| Plugboards.Plugboard.Input | src/key/enigma/plugboard.rs:52-54 | `input` (definition; see Plugboards.UsedLetterPlugged) |
| Plugboards.Plugboard.IsValidPlug | src/key/enigma/plugboard.rs:63-68 | `is_valid_plug` on the board's substitution (definition; see Plugboards.ValidPlug) |
| Plugboards.Plugboard.IsExistingPlug | src/key/enigma/plugboard.rs:77-82 | `is_existing_plug` on the board's substitution (definition; see Plugboards.ExistingPlug) |
| Plugboards.Plugboard.IsLetterUsed | src/key/enigma/plugboard.rs:90-92 | `is_letter_used` on the board's substitution (definition; see Plugboards.LetterUsed) |

## Left out

- The n-gram scorers (`score`, `score_iter`, `bigrams`) are not part of this model and are `f64`-based. The solvers take them as real-valued oracles. Scores are `real`, and `f64::MIN` is the real constant it denotes.
- The Vigenère, rail-fence and scytale scorers return a finite `f64` (the type `F64` of `VigSolver`), a real between `f64::MIN` and `f64::MAX`. Infinities, NaN and `f64` rounding are not modelled. That the values are bounded is what ends the climb in `src/cipher/polyalph/mod.rs:49-86`: the running score grows by at least 0.1 per sweep and cannot pass `f64::MAX`.
- VigSolver.VigSolve: when even the best key length ends at `f64::MIN`, no `>` ever fires and the key stays the empty `Vec::new()`; the model returns that empty key.
- ClassicVigenere.ClassicVigenere.Solve: in the same case the keyword is left empty, as `vig_solve` returns it.
- Railfence.Railfence.Solve: when every rail count scores `f64::MIN`, `num_rails` keeps its old value; the model keeps it too.
- Scytale.Scytale.Solve: when every face count scores `f64::MIN`, `num_faces` keeps its old value; the model keeps it too.
- Transpositions.TranspositionSolve, BlockTransposition.BlockTransposition.Solve and ColumnTransposition.ColumnTransposition.Solve assume the scorer rates every sequence above `f64::MIN`; TranspositionSolve also assumes every bigram score is at least a bound `lo` and that the row sums stay above `f64::MIN`. Without that, the source's strict `>` against `f64::MIN` could push the default column 0 or keep no trial at all, so that the key returned is empty.
- Randomness (`rng.gen_range`, `fastrand`, `thread_rng`, `shuffle`) is not modelled as a generator. Each `randomize` takes, as parameters, the values that were drawn.
- I/O, `serde` persistence of languages, the command line and the `to_string`/`key_info` display methods are outside the model.
- Case conversion is ASCII only: `to_uppercase`/`to_lowercase` of other characters is taken as the identity.
- Integer widths are unbounded. `i16` and `usize` overflow is not followed, except in `src/convert.rs`, where the `u8`/`u16` wrap-around of a release build is written out.
- Util.FindOrder requires non-negative keys. The source's `idx as i16` wrap-around is not modelled.
- Util.FillAlphabetContinue requires a non-empty key. With an empty key the source's `i - 1` underflows and panics.
- Arith.Mmi requires `b != 0`, where the source divides by zero.
- Primes.Rejected replaces the `f64` `sqrt().ceil()` bound by the equivalent integer test `(p - 1)^2 < num`.
- Primes.PrimeGen.Next always returns a prime. The source's `Option` is never `None`.
- LangAlphabets.Check uses `is_unique` as written (Util.IsUniqueAsWritten), as `init` does. It therefore accepts some alphabets with a repeat after a multi-byte letter (LangAlphabets.CheckMissesRepeat).
- LangAlphabets.CharToCpProps, LangAlphabets.CharToCpLetters, LangAlphabets.CharToCpAliases, LangAlphabets.CharToCpKeys, LangAlphabets.LowerPassProps, LangAlphabets.UpperSourcesFresh, Languages.InitWellFormed and Languages.TableWellFormed are stated for canonical alphabets (LangAlphabets.Canonical), which have no repeated letter or substitution character (LangAlphabets.LettersDistinct). `init`'s checks guarantee that only on ASCII text (LangAlphabets.AsciiDistinct). The table `init` builds for an alphabet with a repeat after a multi-byte letter is not described.
- LangAlphabets.CharToCpLetters: stated on a canonical layout only (LangAlphabets.Canonical), like LangAlphabets.CharToCpProps above.
- LangAlphabets.CharToCpAliases: stated on a canonical layout only (LangAlphabets.Canonical), like LangAlphabets.CharToCpProps above.
- LangAlphabets.CharToCpKeys: stated on a canonical layout only (LangAlphabets.Canonical), like LangAlphabets.CharToCpProps above.
- LangAlphabets.Init works on a `LangAlphabet` value and returns the updated value. It does not update the struct's `HashMap` in place.
- `MAX_ALPHABET_LEN` is taken as 32. Its definition, in `src/lang/language.rs`, is not part of this model.
- The Vigenère-family tableaux, their ciphers and the Enigma need a 26-letter alphabet (`Letterwise.TableauAlphabet`). The source indexes 26 by 26 tables with the alphabet's code points.
- With letters in the message, the nine Vigenère-family `encrypt`, `decrypt` and `run` methods require a usable keyword (`Letterwise.KeyUsable`): the source panics on `% 0` at the first letter under an empty keyword, and indexes outside its 26 by 26 table under a keyword letter of 26 or more. A message without letters is covered under any keyword.
- Matrices.Matrix.constructor and Matrices.Matrix.Reset take no language. The source only asserts there that the alphabet has 26 letters, and the model's matrix always works modulo 26.
- Hill.Hill.Encrypt and Hill.Hill.Decrypt use the matrix's `dimSize` and `Matrices.Inverted`. `hill.rs` calls `mat.size` and `invert(language)`, which do not match `src/key/matrix.rs`. Hill.Hill.constructor: `hill.rs:97` calls `Matrix::identity(language)`, which `src/key/matrix.rs` does not define; the model reads it as `IdentityMatrix(2)`, what `Matrix::reset` builds at `src/key/matrix.rs:320-326`. In the same way `classic_vig.rs:56` and `keyed_vig.rs:59` call `ClassicVigSquare::new(language)` and `KeyedVigSquare::new(language)`, while the squares declare `new()` without an argument (`classic_vig_square.rs:39`, `keyed_vig_square.rs:41`); the model calls the argument-less constructors. `keyed_vig.rs:20` and `keyed_vig.rs:37` also take `&Language` and `&String` where `classic_vig.rs` does not; the model gives both the same signatures.
- SimpleSub.SimpleSubstitution.constructor takes the alphabet length and starts from the identity key. The source's `Alphabet::new(language)` call does not match the two-argument constructors that `src/key/alphabet.rs` declares.
- Affine.RoundTrip and Affine.DecryptedLetters are stated for `a >= 0`. The source's `i16` key may be negative, and Rust's `%` then truncates.
- Baconian.Encrypt and Baconian.Decrypt require at least two code points, so that the digits 0 and 1 are letters.
- BlockTransposition and ColumnTransposition require the key order to be a permutation, which `find_order` gives, and a non-empty keyword. With an empty keyword the source divides by zero.
- BlockTransposition.RoundTrip and ColumnTransposition.RoundTrip hold on whole rows only. The tail is described by `UnevenTail`.
- Column transposition has no `reset` or `randomize` in the source, so the model has none.
- `Keyword::identity`, `key_info_mut` and `Keyword::set` are not in `src/key/keyword.rs`. They are modelled as Keywords.Keyword.constructor and Keywords.Keyword.SetKey.
- Railfence.Railfence.Encrypt and Railfence.Railfence.Decrypt require at least one rail. With none the source indexes an empty matrix. The one-rail case uses the corrected walk (see Findings).
- Scytale.Scytale.Encrypt and Scytale.Scytale.Decrypt require at least one face. `new`, `reset`, `randomize` and `solve` never set fewer than two.
- Railfence.Railfence.Solve, Scytale.Scytale.Solve, VigSolver.VigSolve and Transpositions.TranspositionSolve also return the scores they tried, as ghost outputs.
- ClassicVigenere.ClassicVigenere.Solve passes the closure `ClassicVigenere.SolveShift` (`key[idx % key_len]`) as `get_shift`. `classic_vig.rs` passes `false` there, which does not type-check against the closure type `G` that `vig_solve` declares in `src/cipher/polyalph/mod.rs`. The call's other arguments follow `src/cipher/polyalph/mod.rs`.
- `src/cipher/polyalph/classic_vigenere.rs` is not declared in `src/cipher/polyalph/mod.rs`. The model follows `classic_vig.rs`, whose logic it repeats.
- Cards.Cards.KeyStream uses the corrected count cut (Cards.Cards.CountCut). `key_stream` calls `count_cut` as written, and that call is made only when the bottom card is not a joker, which is exactly when the call as written panics (see Findings). The source thus panics in the first such round, where the model goes on.
- Cards.Cards.SetCards uses the corrected count cut in every keying round. `set` calls `count_cut` as written twice per card and panics in the same way.
- Cards.Cards.SetString goes through Cards.Cards.SetCards, so it uses the corrected count cut as well.
- Cards.CardsFromString keys the identity deck through Cards.Cards.SetCards, so it uses the corrected count cut as well.
- Cards.KeyRound, Cards.Cards.KeyRoundStep and Cards.Cards.SetRoundStep are the rounds of `key_stream` and `set` with the corrected count cut.
- Matrices.Matrix.Round tests the draw with the corrected Matrices.Matrix.IsInvertible. As written, `is_invertible` reads a third row of a 2x2 matrix and panics (see Findings).
- Matrices.Matrix.Randomize stops at the first draw the corrected Matrices.Matrix.IsInvertible accepts. As written, the 2x2 `randomize` panics in `is_invertible` on its first draw.
- AlphabetKey.Alphabet.Reset fills `value` with zeros as the source does. The result is not a permutation (AlphabetKey.ResetNotPermutation).
- Numbers.Number.Randomize takes the index `fastrand` draws as a parameter.

## Findings

| source | as written | input that shows it | evidently intended | confidence | as-written member | corrected member |
|---|---|---|---|---|---|---|
| src/util/mod.rs:24-28 | `skip(idx + 1)` skips characters, but `idx` from `char_indices` is a byte offset | `is_unique("éaa")` is true although `a` repeats | true exactly when no character occurs twice | not executed | Util.IsUniqueAsWritten, Util.IsUniqueAsWrittenMissesRepeat | Util.IsUnique, Util.IsUniqueAsWrittenAscii |
| src/key/cards.rs:91-93 | `copy_from_slice(&tmp[0..53])` copies 53 cards into the 54-card deck | any deck whose bottom card is not a joker, with any count | move the top `length` cards to just above the bottom card and keep the bottom card | not executed | Cards.CountCutAsWritten, Cards.CountCutAsWrittenPanics | Cards.Cards.CountCut, Cards.CountCutProps |
| src/key/matrix.rs:99-112 | the 2x2 `invert` takes the determinant of a fresh zero matrix, so `mmi(0, 26)` is `None` and `expect` panics | every 2x2 key, the identity included | invert the key's own matrix | not executed | Matrices.InvertedAsWritten, Matrices.InvertedAsWrittenPanics | Matrices.Inverted, Matrices.InvertedIsInverse |
| src/key/matrix.rs:222-231 | `is_invertible` for a 2x2 matrix calls the 3x3 determinant, which reads `matrix[2]` | every 2x2 key | test the 2x2 determinant | not executed | Matrices.IsInvertibleAsWritten, Matrices.IsInvertibleAsWrittenPanics | Matrices.Matrix.IsInvertible, Matrices.InvertedExists |
| src/cipher/monoalph/rot13.rs:13 | `cp = cp_count / 2 - cp` reflects the alphabet and goes negative past the middle | on English, "B" gives "M" and "Z" fails `update_cp` | the rotation `(cp + n / 2) mod n` | not executed | Rot13.RanAsWritten, Rot13.AsWrittenCounterexample | Rot13.Ran, Rot13.Involution |
| src/cipher/transpos/railfence.rs:24-27 | with one rail, row 0 is both the top and the bottom rail, so the walk turns once, at column 0, and then keeps moving down | one rail, the default of `new` and `reset`, and any message of two or more letters: column 1 lands in row 1, past the one-rail matrix | a single rail keeps every letter on rail 0, so the cipher is the identity | not executed | Railfence.ZigZag, Railfence.OneRailOverruns | Railfence.Rail, Railfence.OneRailIdentity |
