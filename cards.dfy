/**
 * The Solitaire deck (`src/key/cards.rs`): 54 cards `0..54`, where 52 and
 * 53 are the two jokers. The key stream moves the jokers, cuts the deck
 * around them and counts off cards from the top.
 */
module Cards {
  import opened Wrappers
  import opened Permutations
  import opened Util
  import opened LangAlphabets
  import opened Languages

  const DeckSize: int := 54
  const AJoker: int := 52
  const BJoker: int := 53

  /** A full deck: each of the 54 cards once. */
  predicate Deck(d: seq<int>) {
    |d| == DeckSize && IsPermutation(d)
  }

  function Min(a: int, b: int): int {
    if a < b then a else b
  }

  /** The first place at or after `from` that holds `x`, or `|s|` when there is none. */
  function IndexFrom(s: seq<int>, x: int, from: nat): (i: nat)
    requires from <= |s|
    ensures from <= i <= |s| && (i < |s| ==> s[i] == x)
    decreases |s| - from
  {
    if from == |s| then |s| else if s[from] == x then from else IndexFrom(s, x, from + 1)
  }

  /** No place between `from` and the result holds `x`; so the result is a place of `x` whenever it occurs. */
  lemma {:induction false} IndexFromFirst(s: seq<int>, x: int, from: nat)
    requires from <= |s|
    ensures forall j :: from <= j < IndexFrom(s, x, from) ==> s[j] != x
    ensures (exists j :: from <= j < |s| && s[j] == x) ==> IndexFrom(s, x, from) < |s|
    decreases |s| - from
  {
    if from < |s| && s[from] != x {
      IndexFromFirst(s, x, from + 1);
    }
  }

  /** `iter().position(|&c| c == x).unwrap()`: the first place holding `x`. */
  function IndexOf(s: seq<int>, x: int): (i: nat)
    requires x in s
    ensures i < |s| && s[i] == x
  {
    IndexFromFirst(s, x, 0);
    IndexFrom(s, x, 0)
  }

  /** In a deck every card is at the one place that holds it. */
  lemma DeckIndexOf(d: seq<int>, p: int)
    requires Deck(d) && 0 <= p < |d|
    ensures IndexOf(d, d[p]) == p
  {
    IndexFromFirst(d, d[p], 0);
  }

  /** A deck holds both jokers. */
  lemma DeckHasJokers(d: seq<int>)
    requires Deck(d)
    ensures Playable(d)
  {
    PermutationCovers(d, AJoker);
    PermutationCovers(d, BJoker);
    PlayableJokers(d);
  }

  /** A rearrangement of a deck is a deck. */
  lemma MultisetDeck(d: seq<int>, e: seq<int>)
    requires Deck(d) && multiset(e) == multiset(d)
    ensures Deck(e)
  {
    MultisetPermutation(d, e);
  }

  /** The cards in order form a playable deck. */
  lemma IdentityDeck()
    ensures Deck(Permutations.Identity(DeckSize)) && Playable(Permutations.Identity(DeckSize))
  {
    IdentityIsPermutation(DeckSize);
    DeckHasJokers(Permutations.Identity(DeckSize));
  }

  /**
   * What the deck operations read: 54 cards in `0..54` with both jokers
   * (`position(..).unwrap()` and the indices taken from card values).
   */
  predicate Playable(d: seq<int>) {
    |d| == DeckSize && InRange(d, DeckSize) && IndexFrom(d, AJoker, 0) < DeckSize && IndexFrom(d, BJoker, 0) < DeckSize
  }

  /** Both jokers are found exactly when both are in the deck. */
  lemma PlayableJokers(d: seq<int>)
    ensures Playable(d) <==> |d| == DeckSize && InRange(d, DeckSize) && AJoker in d && BJoker in d
  {
    IndexFromFirst(d, AJoker, 0);
    IndexFromFirst(d, BJoker, 0);
  }

  /** A rearrangement of a playable deck is playable. */
  lemma MultisetPlayable(d: seq<int>, e: seq<int>)
    requires Playable(d) && multiset(e) == multiset(d)
    ensures Playable(e)
  {
    PlayableJokers(d);
    assert |e| == |multiset(e)| == |multiset(d)| == |d|;
    forall i | 0 <= i < |e| ensures 0 <= e[i] < DeckSize {
      assert e[i] in multiset(d);
    }
    assert AJoker in multiset(d) && BJoker in multiset(d);
    PlayableJokers(e);
  }

  /* ------------------------------------------------------------------ */
  /*                             shift_joker                            */
  /* ------------------------------------------------------------------ */

  /**
   * The deck after `shift_joker(joker)`: the joker changes place with the
   * card below it; from the bottom it goes to just under the top card.
   */
  function JokerShifted(d: seq<int>, joker: int): (r: seq<int>)
    requires |d| == DeckSize && joker in d
    ensures |r| == DeckSize
  {
    var pos := IndexOf(d, joker);
    if pos == 53 then [d[0], joker] + d[1..53] else Swapped(d, pos, pos + 1)
  }

  /** Shifting a joker only rearranges the deck. */
  lemma JokerShiftedMultiset(d: seq<int>, joker: int)
    requires |d| == DeckSize && joker in d
    ensures multiset(JokerShifted(d, joker)) == multiset(d)
  {
    if IndexOf(d, joker) == 53 {
      assert d == [d[0]] + d[1..53] + [d[53]];
      assert JokerShifted(d, joker) == [d[0]] + [joker] + d[1..53];
    } else {
      SwappedMultiset(d, IndexOf(d, joker), IndexOf(d, joker) + 1);
    }
  }

  /** A joker shift keeps a playable deck playable. */
  lemma JokerShiftedPlayable(d: seq<int>, joker: int)
    requires Playable(d) && (joker == AJoker || joker == BJoker)
    ensures joker in d && Playable(JokerShifted(d, joker)) && multiset(JokerShifted(d, joker)) == multiset(d)
  {
    PlayableJokers(d);
    JokerShiftedMultiset(d, joker);
    MultisetPlayable(d, JokerShifted(d, joker));
  }

  /** In a deck the joker ends one place lower, or at place 1 when it was at the bottom. */
  lemma JokerShiftedPosition(d: seq<int>, joker: int)
    requires Deck(d) && joker in d
    ensures Deck(JokerShifted(d, joker))
    ensures IndexOf(JokerShifted(d, joker), joker) == if IndexOf(d, joker) == 53 then 1 else IndexOf(d, joker) + 1
  {
    var r := JokerShifted(d, joker);
    JokerShiftedMultiset(d, joker);
    MultisetDeck(d, r);
    var q := if IndexOf(d, joker) == 53 then 1 else IndexOf(d, joker) + 1;
    assert r[q] == joker;
    DeckIndexOf(r, q);
  }

  /* ------------------------------------------------------------------ */
  /*                              triple_cut                            */
  /* ------------------------------------------------------------------ */

  /** The places of the upper and the lower joker. */
  function JokerBounds(d: seq<int>): (b: (int, int))
    requires |d| == DeckSize && AJoker in d && BJoker in d
    ensures 0 <= b.0 <= b.1 < DeckSize
  {
    var a, b := IndexOf(d, AJoker), IndexOf(d, BJoker);
    (Min(a, b), if a < b then b else a)
  }

  /**
   * The deck after `triple_cut`: the cards below the lower joker, then the
   * block from the upper joker to the lower one, then the cards above it.
   */
  function TripleCutDeck(d: seq<int>): (r: seq<int>)
    requires |d| == DeckSize && AJoker in d && BJoker in d
    ensures |r| == DeckSize
  {
    var a, b := IndexOf(d, AJoker), IndexOf(d, BJoker);
    var lo, hi := Min(a, b), if a < b then b else a;
    d[hi + 1..] + d[lo..hi + 1] + d[..lo]
  }

  /** The three parts of a triple cut, around the jokers at `a` and `b`. */
  lemma TripleCutParts(d: seq<int>, a: int, b: int)
    requires |d| == DeckSize && AJoker in d && BJoker in d && a == IndexOf(d, AJoker) && b == IndexOf(d, BJoker)
    ensures var lo, hi := Min(a, b), if a < b then b else a;
      TripleCutDeck(d) == d[hi + 1..] + d[lo..hi + 1] + d[..lo]
  {
  }

  /** A triple cut only rearranges the deck. */
  lemma TripleCutMultiset(d: seq<int>)
    requires |d| == DeckSize && AJoker in d && BJoker in d
    ensures multiset(TripleCutDeck(d)) == multiset(d)
  {
    var (lo, hi) := JokerBounds(d);
    assert d == d[..lo] + d[lo..hi + 1] + d[hi + 1..];
  }

  /** A triple cut keeps a playable deck playable. */
  lemma TripleCutPlayable(d: seq<int>)
    requires Playable(d)
    ensures AJoker in d && BJoker in d
    ensures Playable(TripleCutDeck(d)) && multiset(TripleCutDeck(d)) == multiset(d)
  {
    PlayableJokers(d);
    TripleCutMultiset(d);
    MultisetPlayable(d, TripleCutDeck(d));
  }

  /** The two ends of the block `lo..hi` land at places `53 - hi` and `53 - lo`. */
  lemma CutAroundEnds(d: seq<int>, lo: int, hi: int)
    requires 0 <= lo <= hi < |d| == DeckSize
    ensures var r := d[hi + 1..] + d[lo..hi + 1] + d[..lo];
      r[53 - hi] == d[lo] && r[53 - lo] == d[hi]
  {
  }

  /** In a deck the cut moves the joker-bounded block to start right after the lower cards. */
  lemma TripleCutBounds(d: seq<int>)
    requires Deck(d)
    ensures Playable(d) && Playable(TripleCutDeck(d))
    ensures JokerBounds(TripleCutDeck(d)) == (53 - JokerBounds(d).1, 53 - JokerBounds(d).0)
  {
    DeckHasJokers(d);
    var (lo, hi) := JokerBounds(d);
    var r := TripleCutDeck(d);
    TripleCutMultiset(d);
    MultisetDeck(d, r);
    DeckHasJokers(r);
    CutAroundEnds(d, lo, hi);
    DeckIndexOf(r, 53 - hi);
    DeckIndexOf(r, 53 - lo);
  }

  /** Cutting around `lo..hi` and then around the block's new place gives the deck back. */
  lemma CutAroundTwice(d: seq<int>, lo: int, hi: int)
    requires 0 <= lo <= hi < |d| == DeckSize
    ensures var r := d[hi + 1..] + d[lo..hi + 1] + d[..lo];
      r[54 - lo..] + r[53 - hi..54 - lo] + r[..53 - hi] == d
  {
    var r := d[hi + 1..] + d[lo..hi + 1] + d[..lo];
    assert r[54 - lo..] == d[..lo];
    assert r[53 - hi..54 - lo] == d[lo..hi + 1];
    assert r[..53 - hi] == d[hi + 1..];
    assert d == d[..lo] + d[lo..hi + 1] + d[hi + 1..];
  }

  /** A triple cut undoes itself. */
  lemma TripleCutInvolution(d: seq<int>)
    requires Deck(d)
    ensures Playable(d) && Playable(TripleCutDeck(d)) && TripleCutDeck(TripleCutDeck(d)) == d
  {
    TripleCutBounds(d);
    var (lo, hi) := JokerBounds(d);
    CutAroundTwice(d, lo, hi);
  }

  /* ------------------------------------------------------------------ */
  /*                               count_cut                            */
  /* ------------------------------------------------------------------ */

  /**
   * The deck after `count_cut(length)` as intended: unless the bottom card
   * is a joker, the top `length` cards move to just above the bottom card.
   */
  function CountCutDeck(d: seq<int>, length: int): (r: seq<int>)
    requires |d| == DeckSize && (d[53] < 52 ==> 0 <= length <= 53)
    ensures |r| == DeckSize && r[53] == d[53]
  {
    if d[53] < 52 then d[length..53] + d[..length] + [d[53]] else d
  }

  /** A count cut rearranges the deck, and cutting the other `53 - length` cards undoes it. */
  lemma CountCutProps(d: seq<int>, length: int)
    requires |d| == DeckSize && (d[53] < 52 ==> 0 <= length <= 53)
    ensures multiset(CountCutDeck(d, length)) == multiset(d)
    ensures d[53] < 52 ==> CountCutDeck(CountCutDeck(d, length), 53 - length) == d
  {
    if d[53] < 52 {
      var r := CountCutDeck(d, length);
      assert d == d[..length] + d[length..53] + [d[53]];
      assert r[53 - length..53] == d[..length];
      assert r[..53 - length] == d[length..53];
    }
  }

  /** A count cut keeps a playable deck playable. */
  lemma CountCutPlayable(d: seq<int>, length: int)
    requires Playable(d) && (d[53] < 52 ==> 0 <= length <= 53)
    ensures Playable(CountCutDeck(d, length)) && multiset(CountCutDeck(d, length)) == multiset(d)
  {
    CountCutProps(d, length);
    MultisetPlayable(d, CountCutDeck(d, length));
  }

  /** `copy_from_slice`, which panics (`None`) unless both slices have one length. */
  function CopyFromSlice(dest: seq<int>, src: seq<int>): Option<seq<int>> {
    if |dest| == |src| then Some(src) else None
  }

  /**
   * `count_cut` as written: it copies the 53 cut cards into the whole
   * 54-card vector, whose lengths differ.
   */
  function CountCutAsWritten(d: seq<int>, length: int): Option<seq<int>>
    requires |d| == DeckSize && (d[53] < 52 ==> 0 <= length <= 53)
  {
    if d[53] < 52 then CopyFromSlice(d, (d[length..53] + d[..length] + [0])[..53]) else Some(d)
  }

  /** As written, `count_cut` panics on every deck whose bottom card is not a joker. */
  lemma CountCutAsWrittenPanics(d: seq<int>, length: int)
    requires |d| == DeckSize && d[53] < 52 && 0 <= length <= 53
    ensures CountCutAsWritten(d, length) == None
  {
  }

  /* ------------------------------------------------------------------ */
  /*                        output_card and key_stream                  */
  /* ------------------------------------------------------------------ */

  /**
   * `output_card`: with a non-joker on top, one more than the card that
   * many places down (one more than the top card's value); with a joker on
   * top, one more than the bottom card. Capped at 53.
   */
  function OutputCardOf(d: seq<int>): (r: int)
    requires |d| == DeckSize && (d[0] < 52 ==> 0 <= d[0])
    ensures r <= 53
  {
    if d[0] < 52 then Min(1 + d[d[0] + 1], 53) else Min(d[53] + 1, 53)
  }

  /** On a playable deck the output card is between 1 and 53. */
  lemma OutputCardRange(d: seq<int>)
    requires Playable(d)
    ensures 1 <= OutputCardOf(d) <= 53
  {
    assert 0 <= d[0] < DeckSize && 0 <= d[53] < DeckSize;
    if d[0] < 52 {
      assert 0 <= d[d[0] + 1] < DeckSize;
    }
  }

  /**
   * The moves a round is made of: a joker down one place, the triple cut,
   * the count cut by the bottom card (`count_cut(value[53] + 1)`, which
   * leaves a deck with a joker at the bottom alone) and a count cut by a
   * given number of cards.
   */
  datatype Move = Shift(joker: int) | Triple | CountBottom | Count(length: int)

  /** The moves the source makes: only the jokers move, only `0..53` cards are counted off. */
  predicate Legal(m: Move) {
    match m
    case Shift(j) => j == AJoker || j == BJoker
    case Count(len) => 0 <= len <= 53
    case _ => true
  }

  predicate LegalMoves(ms: seq<Move>) {
    forall i :: 0 <= i < |ms| ==> Legal(ms[i])
  }

  /** The deck after one move. */
  function Step(d: seq<int>, m: Move): (r: seq<int>)
    requires Playable(d) && Legal(m)
    ensures Playable(r)
  {
    match m
    case Shift(j) =>
      JokerShiftedPlayable(d, j);
      JokerShifted(d, j)
    case Triple =>
      TripleCutPlayable(d);
      TripleCutDeck(d)
    case CountBottom =>
      CountCutPlayable(d, d[53] + 1);
      CountCutDeck(d, d[53] + 1)
    case Count(len) =>
      CountCutPlayable(d, len);
      CountCutDeck(d, len)
  }

  /** The deck after the moves `ms`, first to last. */
  function Play(d: seq<int>, ms: seq<Move>): (r: seq<int>)
    requires Playable(d) && LegalMoves(ms)
    ensures Playable(r)
    decreases |ms|
  {
    if ms == [] then d else Step(Play(d, ms[..|ms| - 1]), ms[|ms| - 1])
  }

  /** Every move only rearranges the deck. */
  lemma StepMultiset(d: seq<int>, m: Move)
    requires Playable(d) && Legal(m)
    ensures multiset(Step(d, m)) == multiset(d)
  {
    match m
    case Shift(j) => JokerShiftedPlayable(d, j);
    case Triple => TripleCutPlayable(d);
    case CountBottom => CountCutPlayable(d, d[53] + 1);
    case Count(len) => CountCutPlayable(d, len);
  }

  /** So does every sequence of moves. */
  lemma {:induction false} PlayMultiset(d: seq<int>, ms: seq<Move>)
    requires Playable(d) && LegalMoves(ms)
    ensures multiset(Play(d, ms)) == multiset(d)
    decreases |ms|
  {
    if ms != [] {
      PlayMultiset(d, ms[..|ms| - 1]);
      StepMultiset(Play(d, ms[..|ms| - 1]), ms[|ms| - 1]);
    }
  }

  /** One more move is one more step. */
  lemma PlaySnoc(d: seq<int>, ms: seq<Move>, m: Move)
    requires Playable(d) && LegalMoves(ms) && Legal(m)
    ensures LegalMoves(ms + [m]) && Play(d, ms + [m]) == Step(Play(d, ms), m)
  {
    assert (ms + [m])[..|ms|] == ms;
  }

  /** Every round starts with joker A down once, joker B down twice and the triple cut. */
  const JokerMoves: seq<Move> := [Shift(AJoker), Shift(BJoker), Shift(BJoker), Triple]

  /** The joker moves, one at a time. */
  lemma JokerMovesInOrder()
    ensures JokerMoves == [] + [Shift(AJoker)] + [Shift(BJoker)] + [Shift(BJoker)] + [Triple]
  {
  }

  /** A round of `key_stream`. */
  const RoundMoves: seq<Move> := JokerMoves + [CountBottom]

  /** A keying round of `set` with `card`. */
  function SetMoves(card: int): seq<Move> {
    RoundMoves + [Count(card + 1)]
  }

  /** The rounds make only legal moves. */
  lemma MovesLegal(card: int)
    requires -1 <= card <= 52
    ensures LegalMoves(JokerMoves) && LegalMoves(RoundMoves) && LegalMoves(SetMoves(card))
  {
    assert RoundMoves == [Shift(AJoker), Shift(BJoker), Shift(BJoker), Triple, CountBottom];
  }

  /** One round of `key_stream`. */
  function KeyRound(d: seq<int>): (r: seq<int>)
    requires Playable(d)
    ensures Playable(r)
  {
    MovesLegal(0);
    Play(d, RoundMoves)
  }

  /** The deck after `k` rounds. */
  function Rounds(d: seq<int>, k: nat): (r: seq<int>)
    requires Playable(d)
    ensures Playable(r)
    decreases k
  {
    if k == 0 then d else Rounds(KeyRound(d), k - 1)
  }

  /** The last of `k + 1` rounds is one more round after `k`. */
  lemma {:induction false} RoundsSnoc(d: seq<int>, k: nat)
    requires Playable(d)
    ensures Rounds(d, k + 1) == KeyRound(Rounds(d, k))
    decreases k
  {
    if k > 0 {
      RoundsSnoc(KeyRound(d), k - 1);
    }
  }

  /** A round only rearranges the deck. */
  lemma KeyRoundMultiset(d: seq<int>)
    requires Playable(d)
    ensures multiset(KeyRound(d)) == multiset(d)
  {
    MovesLegal(0);
    PlayMultiset(d, RoundMoves);
  }

  /** The rounds only rearrange the deck. */
  lemma {:induction false} RoundsMultiset(d: seq<int>, k: nat)
    requires Playable(d)
    ensures multiset(Rounds(d, k)) == multiset(d)
    decreases k
  {
    if k > 0 {
      var e := KeyRound(d);
      KeyRoundMultiset(d);
      RoundsMultiset(e, k - 1);
    }
  }

  /** Every round keeps a deck a deck. */
  lemma RoundsDeck(d: seq<int>, k: nat)
    requires Deck(d)
    ensures Playable(d) && Deck(Rounds(d, k))
  {
    DeckHasJokers(d);
    RoundsMultiset(d, k);
    MultisetDeck(d, Rounds(d, k));
  }

  /** What one round writes: its output card, unless it is 53. */
  function Emitted(e: seq<int>): (r: seq<int>)
    requires Playable(e)
    ensures |r| <= 1 && forall i :: 0 <= i < |r| ==> 1 <= r[i] <= 52
  {
    OutputCardRange(e);
    var o := OutputCardOf(e);
    if o < 53 then [o] else []
  }

  /** The stream values the first `k` rounds write. */
  function Outputs(d: seq<int>, k: nat): (r: seq<int>)
    requires Playable(d)
    decreases k
  {
    if k == 0 then [] else Emitted(KeyRound(d)) + Outputs(KeyRound(d), k - 1)
  }

  /** The values of `k + 1` rounds: those of the first `k`, then what the last round writes. */
  lemma {:induction false} OutputsSnoc(d: seq<int>, k: nat)
    requires Playable(d)
    ensures Outputs(d, k + 1) == Outputs(d, k) + Emitted(Rounds(d, k + 1))
    decreases k
  {
    if k > 0 {
      var e := KeyRound(d);
      OutputsSnoc(e, k - 1);
      RoundsSnoc(e, k - 1);
      assert Emitted(e) + (Outputs(e, k - 1) + Emitted(Rounds(e, k))) == (Emitted(e) + Outputs(e, k - 1)) + Emitted(Rounds(e, k));
    }
  }

  /** At most one value per round is written, and each is a card `1..52`. */
  lemma {:induction false} OutputsProps(d: seq<int>, k: nat)
    requires Playable(d)
    ensures |Outputs(d, k)| <= k
    ensures forall i :: 0 <= i < |Outputs(d, k)| ==> 1 <= Outputs(d, k)[i] <= 52
    decreases k
  {
    if k > 0 {
      OutputsProps(KeyRound(d), k - 1);
      var first, rest := Emitted(KeyRound(d)), Outputs(KeyRound(d), k - 1);
      assert Outputs(d, k) == first + rest;
      forall i | 0 <= i < |first + rest| ensures 1 <= (first + rest)[i] <= 52 {
        if i < |first| {
          assert (first + rest)[i] == first[i];
        } else {
          assert (first + rest)[i] == rest[i - |first|];
        }
      }
    }
  }

  /** The stream as `key_stream` returns it: the written values, then zeros up to `n`. */
  function Stream(d: seq<int>, n: nat): (r: seq<int>)
    requires Playable(d)
    ensures |r| == n
  {
    OutputsProps(d, n);
    Outputs(d, n) + seq(n - |Outputs(d, n)|, _ => 0)
  }

  /** Every stream value is a card `1..52`, or a trailing 0 for a round that wrote nothing. */
  lemma StreamProps(d: seq<int>, n: nat)
    requires Playable(d)
    ensures forall i :: 0 <= i < n ==> 0 <= Stream(d, n)[i] <= 52
    ensures forall i :: 0 <= i < n ==> (Stream(d, n)[i] == 0 <==> i >= |Outputs(d, n)|)
  {
    OutputsProps(d, n);
  }

  /** A buffer of `n` places holding the written values and zeros after them is the stream. */
  lemma StreamOf(d: seq<int>, n: nat, s: seq<int>)
    requires Playable(d) && |s| == n && |Outputs(d, n)| <= n && s[..|Outputs(d, n)|] == Outputs(d, n)
    requires forall i :: |Outputs(d, n)| <= i < n ==> s[i] == 0
    ensures s == Stream(d, n)
  {
    var w := Outputs(d, n);
    assert s == s[..|w|] + s[|w|..];
  }

  /* ------------------------------------------------------------------ */
  /*                                  set                               */
  /* ------------------------------------------------------------------ */

  /** One keying step of `set`. */
  function SetRound(d: seq<int>, card: int): (r: seq<int>)
    requires Playable(d) && -1 <= card <= 52
    ensures Playable(r)
  {
    MovesLegal(card);
    Play(d, SetMoves(card))
  }

  /** Every value `set` may key with. */
  predicate KeyCards(cards: seq<int>) {
    forall i :: 0 <= i < |cards| ==> -1 <= cards[i] <= 52
  }

  /** The cards `set` keys with for a string: its letters' code points, all of them cards. */
  function LetterCards(a: LangAlphabet, s: string): (r: seq<int>)
    requires WF(a) && CpCount(a) <= 53
    ensures r == StringToVec(a, s) && KeyCards(r)
  {
    StringToVecProps(a, s);
    StringToVec(a, s)
  }

  /** The deck after keying with `cards` in order. */
  function Keyed(d: seq<int>, cards: seq<int>): (r: seq<int>)
    requires Playable(d) && KeyCards(cards)
    ensures Playable(r)
    decreases |cards|
  {
    if cards == [] then d else Keyed(SetRound(d, cards[0]), cards[1..])
  }

  /** Keying with `cards` then `more` is keying with both in turn. */
  lemma {:induction false} KeyedConcat(d: seq<int>, cards: seq<int>, more: seq<int>)
    requires Playable(d) && KeyCards(cards) && KeyCards(more)
    ensures KeyCards(cards + more) && Keyed(d, cards + more) == Keyed(Keyed(d, cards), more)
    decreases |cards|
  {
    if cards != [] {
      assert (cards + more)[1..] == cards[1..] + more;
      KeyedConcat(SetRound(d, cards[0]), cards[1..], more);
    } else {
      assert cards + more == more;
    }
  }

  /** Keying only rearranges the deck. */
  lemma {:induction false} KeyedMultiset(d: seq<int>, cards: seq<int>)
    requires Playable(d) && KeyCards(cards)
    ensures multiset(Keyed(d, cards)) == multiset(d)
    decreases |cards|
  {
    if cards != [] {
      MovesLegal(cards[0]);
      PlayMultiset(d, SetMoves(cards[0]));
      KeyedMultiset(SetRound(d, cards[0]), cards[1..]);
    }
  }

  /** Keying keeps a deck a deck. */
  lemma KeyedDeck(d: seq<int>, cards: seq<int>)
    requires Deck(d) && KeyCards(cards)
    ensures Playable(d) && Deck(Keyed(d, cards))
  {
    DeckHasJokers(d);
    KeyedMultiset(d, cards);
    MultisetDeck(d, Keyed(d, cards));
  }

  /**
   * One copying loop of `triple_cut` and `count_cut`: `v[from..to]` goes to
   * `tmp` from place `idx` on, after the `done` part already there.
   */
  method CopyRange(tmp: array<int>, idx: int, ghost done: seq<int>, v: seq<int>, from: int, to: int) returns (next: int)
    requires 0 <= from <= to <= |v| && 0 <= idx && idx + (to - from) <= tmp.Length && tmp[..idx] == done
    modifies tmp
    ensures next == idx + (to - from)
    ensures tmp[..next] == done + v[from..to]
  {
    next := idx;
    for i := from to to
      invariant next == idx + (i - from)
      invariant tmp[..next] == done + v[from..i]
    {
      tmp[next] := v[i];
      assert tmp[..next + 1] == tmp[..next] + [v[i]];
      next := next + 1;
    }
  }

  /**
   * The copying part of `triple_cut`: into a fresh 54-card buffer go the
   * cards below `hi`, then `lo..hi` itself, then the cards above `lo`.
   */
  method CutAround(v: seq<int>, lo: int, hi: int) returns (r: seq<int>)
    requires |v| == DeckSize && 0 <= lo <= hi < DeckSize
    ensures r == v[hi + 1..] + v[lo..hi + 1] + v[..lo]
  {
    var tmp := new int[DeckSize](_ => 0);
    var idx := CopyRange(tmp, 0, [], v, hi + 1, DeckSize);
    assert v[hi + 1..DeckSize] == v[hi + 1..];
    idx := CopyRange(tmp, idx, v[hi + 1..], v, lo, hi + 1);
    idx := CopyRange(tmp, idx, v[hi + 1..] + v[lo..hi + 1], v, 0, lo);
    assert tmp[..] == tmp[..idx];
    r := tmp[..];
  }

  class Cards {
    var value: seq<int>

    /** `Key::new` with a slice: the deck is a copy of it. */
    constructor FromSlice(arg: seq<int>)
      ensures value == arg
    {
      value := arg;
    }

    /** `identity`: the cards `0..54` in order. */
    constructor Identity()
      ensures value == Permutations.Identity(DeckSize) && Deck(value) && Playable(value)
    {
      value := Permutations.Identity(DeckSize);
      IdentityDeck();
    }

    /** `shift_joker`; `unwrap` demands that the joker is in the deck. */
    method ShiftJoker(joker: int)
      requires |value| == DeckSize && joker in value
      modifies this
      ensures value == JokerShifted(old(value), joker)
    {
      var jokerPos := IndexOf(value, joker);
      if jokerPos == 53 {
        var i := 53;
        while i > 1
          invariant 1 <= i <= 53 && |value| == DeckSize
          invariant forall j :: 0 <= j <= i ==> value[j] == old(value)[j]
          invariant forall j :: i < j < DeckSize ==> value[j] == old(value)[j - 1]
        {
          value := value[i := value[i - 1]];
          i := i - 1;
        }
        value := value[1 := joker];
        assert value == [old(value)[0], joker] + old(value)[1..53];
      } else {
        value := Swapped(value, jokerPos, jokerPos + 1);
      }
    }

    /** `triple_cut`, writing the three parts into a fresh 54-card buffer. */
    method TripleCut()
      requires |value| == DeckSize && AJoker in value && BJoker in value
      modifies this
      ensures value == TripleCutDeck(old(value))
    {
      var v := value;
      var aJokerPos := IndexOf(v, AJoker);
      var bJokerPos := IndexOf(v, BJoker);
      var min := Min(aJokerPos, bJokerPos);
      var max := if aJokerPos < bJokerPos then bJokerPos else aJokerPos;
      TripleCutParts(v, aJokerPos, bJokerPos);
      value := CutAround(v, min, max);
    }

    /**
     * `count_cut` as intended: the 53 cut cards are copied over the top 53
     * places and the bottom card stays.
     */
    method CountCut(length: int)
      requires |value| == DeckSize && (value[53] < 52 ==> 0 <= length <= 53)
      modifies this
      ensures value == CountCutDeck(old(value), length)
    {
      var v := value;
      if v[53] < 52 {
        var tmp := new int[DeckSize](_ => 0);
        var idx := CopyRange(tmp, 0, [], v, length, 53);
        idx := CopyRange(tmp, idx, v[length..53], v, 0, length);
        value := tmp[..53] + v[53..];
      }
    }

    /** `output_card`. */
    function OutputCard(): (r: int)
      reads this
      requires |value| == DeckSize && (value[0] < 52 ==> 0 <= value[0])
      ensures r == OutputCardOf(value)
    {
      if value[0] < 52 then Min(1 + value[value[0] + 1], 53) else Min(value[53] + 1, 53)
    }

    /** The moves `key_stream` and `set` start each round with. */
    method ShiftJokersAndCut()
      requires Playable(value)
      modifies this
      ensures value == Play(old(value), JokerMoves)
    {
      ghost var d := value;
      ghost var ms: seq<Move> := [];
      ShiftJoker(AJoker);
      PlaySnoc(d, ms, Shift(AJoker));
      ms := ms + [Shift(AJoker)];
      ShiftJoker(BJoker);
      PlaySnoc(d, ms, Shift(BJoker));
      ms := ms + [Shift(BJoker)];
      ShiftJoker(BJoker);
      PlaySnoc(d, ms, Shift(BJoker));
      ms := ms + [Shift(BJoker)];
      TripleCut();
      PlaySnoc(d, ms, Triple);
      ms := ms + [Triple];
      JokerMovesInOrder();
    }

    /** The body of the `key_stream` loop up to the output card: one round. */
    method KeyRoundStep()
      requires Playable(value)
      modifies this
      ensures value == KeyRound(old(value))
    {
      ghost var prev := value;
      ShiftJokersAndCut();
      if value[53] < 52 {
        CountCut(value[53] + 1);
      }
      PlaySnoc(prev, JokerMoves, CountBottom);
    }

    /** The body of the `set` loop: one keying round with `card`. */
    method SetRoundStep(card: int)
      requires Playable(value) && -1 <= card <= 52
      modifies this
      ensures value == SetRound(old(value), card)
    {
      ghost var prev := value;
      MovesLegal(card);
      ShiftJokersAndCut();
      CountCut(value[53] + 1);
      PlaySnoc(prev, JokerMoves, CountBottom);
      CountCut(card + 1);
      PlaySnoc(prev, RoundMoves, Count(card + 1));
    }

    /** The end of the `key_stream` loop: an output card below 53 goes to `stream[idx]`. */
    method WriteOutput(buf: array<int>, idx: nat) returns (next: nat)
      requires Playable(value) && idx < buf.Length
      modifies buf
      ensures next == idx + |Emitted(value)| && buf[..next] == old(buf[..idx]) + Emitted(value)
      ensures forall i :: next <= i < buf.Length ==> buf[i] == old(buf[i])
    {
      var outputCard := OutputCard();
      next := idx;
      if outputCard < 53 {
        buf[idx] := outputCard;
        next := idx + 1;
      }
    }

    /** Round `k + 1` of `key_stream`, with the values of the first `k` rounds written. */
    method StreamRound(buf: array<int>, idx: nat, ghost d: seq<int>, ghost k: nat) returns (next: nat)
      requires Playable(d) && value == Rounds(d, k) && idx <= k < buf.Length
      requires buf[..idx] == Outputs(d, k) && forall i :: idx <= i < buf.Length ==> buf[i] == 0
      modifies this, buf
      ensures value == Rounds(d, k + 1) && next <= k + 1
      ensures buf[..next] == Outputs(d, k + 1) && forall i :: next <= i < buf.Length ==> buf[i] == 0
    {
      RoundsSnoc(d, k);
      OutputsSnoc(d, k);
      KeyRoundStep();
      next := WriteOutput(buf, idx);
    }

    /**
     * `key_stream`: `streamLen` rounds; each output card below 53 is
     * written at the next free place of a zeroed stream.
     */
    method KeyStream(streamLen: nat) returns (stream: seq<int>)
      requires Playable(value)
      modifies this
      ensures value == Rounds(old(value), streamLen) && stream == Stream(old(value), streamLen)
    {
      var buf := new int[streamLen](_ => 0);
      ghost var d := value;
      var idx: nat := 0;
      for k := 0 to streamLen
        invariant value == Rounds(d, k)
        invariant idx <= k
        invariant buf[..idx] == Outputs(d, k)
        invariant forall i :: idx <= i < streamLen ==> buf[i] == 0
      {
        idx := StreamRound(buf, idx, d, k);
      }
      stream := buf[..];
      StreamOf(d, streamLen, stream);
    }

    /** `set` with code points: one keying step per card. */
    method SetCards(cards: seq<int>)
      requires Playable(value) && KeyCards(cards)
      modifies this
      ensures value == Keyed(old(value), cards)
    {
      ghost var d := value;
      for k := 0 to |cards|
        invariant Playable(value) && value == Keyed(d, cards[..k])
      {
        var card := cards[k];
        SetRoundStep(card);
        KeyedConcat(d, cards[..k], [card]);
        assert cards[..k + 1] == cards[..k] + [card];
      }
      assert cards[..|cards|] == cards;
    }

    /** `set` with a string: the code points of its letters. */
    method SetString(a: LangAlphabet, s: string)
      requires Playable(value) && WF(a) && CpCount(a) <= 53
      modifies this
      ensures value == Keyed(old(value), LetterCards(a, s))
    {
      SetCards(LetterCards(a, s));
    }

    /** `reset`: `fill_consecutive_vec(value, 0, 54)`, the identity on a 54-card deck. */
    method Reset()
      modifies this
      ensures value == Consecutive(0, DeckSize, |old(value)|)
      ensures |old(value)| == DeckSize ==> value == Permutations.Identity(DeckSize)
    {
      var arr := ToArray(value);
      FillConsecutive(arr, 0, DeckSize);
      value := arr[..];
      ConsecutiveIsIdentity(DeckSize);
    }

    /** `randomize`: shuffle the deck in place with the draws `picks`; a deck stays a deck. */
    method Randomize(picks: seq<int>)
      requires |picks| == |value| && InRange(picks, |value|)
      modifies this
      ensures value == Shuffled(old(value), picks) && multiset(value) == multiset(old(value))
      ensures old(Deck(value)) ==> Deck(value)
    {
      var arr := ToArray(value);
      Shuffle(arr, picks);
      ShuffledProps(old(value), picks);
      value := arr[..];
    }
  }

  /** `Key::new` with a string: the identity deck keyed with the letters' code points. */
  method CardsFromString(a: LangAlphabet, s: string) returns (c: Cards)
    requires WF(a) && CpCount(a) <= 53
    ensures Playable(Permutations.Identity(DeckSize)) && fresh(c)
    ensures c.value == Keyed(Permutations.Identity(DeckSize), LetterCards(a, s))
  {
    IdentityDeck();
    c := new Cards.Identity();
    c.SetString(a, s);
  }
}
