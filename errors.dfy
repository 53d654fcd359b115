/**
 * The crate's error kinds (`src/error.rs`) with their payloads, plus the
 * `InvalidKeyFmt` kind the key parsers return. Paths and I/O reasons are
 * carried as plain strings.
 */
module Errors {
  datatype Error =
    | FileNotFound(path: string)
    | CouldntReadFile(path: string)
    | CouldntDeserializeFile(path: string)
    | AlphabetLenDifference(upperLen: nat, lowerLen: nat)
    | InsufficientCorpusLen(len: nat)
    | AlphabetLenUnmatched(expected: nat)
    | ScoringSubTableLen(alphabetLen: nat, tableLen: nat)
    | MaxAlphabetLenExceeded(alphabetLen: nat)
    | RepeatCharUpperAlph(upper: string)
    | RepeatCharLowerAlph(lower: string)
    | SubstitutionsNotPairs(subs: seq<string>)
    | SubstitutionsNotUnique(subs: seq<string>)
    | InvalidCharsInSubstitutions(subs: seq<string>)
    | CouldntWriteToStdout
    | InsufficientInputLen(expected: nat, actual: nat)
    | InvalidKeyFmt(format: string, arg: string)
}
