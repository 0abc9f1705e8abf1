/**
 * The deck factory: the fixed solved layout, its one-move variant, the
 * Fisher-Yates shuffle and the choice between them by debug mode.
 */
module Deck {
  import opened Cards
  import opened Swap

  /** The debug modes: a shuffled deck, the solved layout, or the solved layout one swap away. */
  datatype DebugMode = ModeOff | ModeSolved | ModeOneMove

  /** `SOLVED_DECK`, row by row. */
  const SolvedDeck: seq<Card> := [
    Card(A, D), Card(Q, S), Card(K, H), Card(J, C),
    Card(K, C), Card(J, H), Card(A, S), Card(Q, D),
    Card(J, S), Card(K, D), Card(Q, C), Card(A, H),
    Card(Q, H), Card(A, C), Card(J, D), Card(K, S)
  ]

  /** The `ONE_MOVE` deck: the solved layout with its first two slots exchanged. */
  function OneMoveDeck(): (d: seq<Card>)
    ensures |d| == 16
  {
    SwapAt(SolvedDeck, 0, 1)
  }

  lemma SolvedDeckIsPermutation()
    ensures IsDeckPermutation(SolvedDeck)
  {
    var d := SolvedDeck;
    forall i, j | 0 <= i < j < 16 ensures d[i] != d[j] {
      assert 4 * SuitIndex(d[i].suit) + RankIndex(d[i].rank) != 4 * SuitIndex(d[j].suit) + RankIndex(d[j].rank);
    }
    DistinctDeckIsPermutation(d);
  }

  lemma OneMoveDeckIsPermutation()
    ensures IsDeckPermutation(OneMoveDeck())
  {
    SolvedDeckIsPermutation();
    SwapAtPermutes(SolvedDeck, 0, 1);
  }

  /**
   * Random draws for a shuffle of n entries: draws[i] is the index j, 0 <= j <= i,
   * drawn at the step that handles slot i (draws[0] is never used).
   */
  ghost predicate ValidDraws(n: nat, draws: seq<nat>)
  {
    |draws| == n && forall i :: 0 < i < n ==> draws[i] <= i
  }

  /** The shuffle steps for slots i, i-1, ..., 1, applied in that order. */
  function ShuffleSteps<T>(s: seq<T>, draws: seq<nat>, i: int): seq<T>
    requires ValidDraws(|s|, draws) && i < |s|
    decreases i
  {
    if i <= 0 then s
    else ShuffleSteps(SwapAt(s, i, draws[i]), draws, i - 1)
  }

  /** The arrangement Fisher-Yates produces from `s` with the given draws. */
  function FisherYates<T>(s: seq<T>, draws: seq<nat>): seq<T>
    requires ValidDraws(|s|, draws)
  {
    ShuffleSteps(s, draws, |s| - 1)
  }

  lemma {:induction false} ShuffleStepsPermutes<T>(s: seq<T>, draws: seq<nat>, i: int)
    requires ValidDraws(|s|, draws) && i < |s|
    ensures |ShuffleSteps(s, draws, i)| == |s|
    ensures multiset(ShuffleSteps(s, draws, i)) == multiset(s)
    decreases i
  {
    if i > 0 {
      SwapAtPermutes(s, i, draws[i]);
      ShuffleStepsPermutes(SwapAt(s, i, draws[i]), draws, i - 1);
    }
  }

  /** Whatever the draws, a shuffle is a permutation of its input. */
  lemma FisherYatesPermutes<T>(s: seq<T>, draws: seq<nat>)
    requires ValidDraws(|s|, draws)
    ensures |FisherYates(s, draws)| == |s|
    ensures multiset(FisherYates(s, draws)) == multiset(s)
  {
    ShuffleStepsPermutes(s, draws, |s| - 1);
  }

  /**
   * `shuffle`: copies its input into a new array and runs the decrementing
   * Fisher-Yates loop on the copy; the input is a value and cannot change.
   */
  method Shuffle<T>(arr: seq<T>, draws: seq<nat>) returns (a: array<T>)
    requires ValidDraws(|arr|, draws)
    ensures fresh(a)
    ensures a[..] == FisherYates(arr, draws)
    ensures multiset(a[..]) == multiset(arr)
  {
    a := new T[|arr|](k requires 0 <= k < |arr| => arr[k]);
    assert a[..] == arr;
    var i := a.Length - 1;
    while i > 0
      invariant -1 <= i < a.Length == |arr|
      invariant ShuffleSteps(a[..], draws, i) == FisherYates(arr, draws)
    {
      var j := draws[i];
      ghost var before := a[..];
      a[i], a[j] := a[j], a[i];
      assert a[..] == SwapAt(before, i, j);
      i := i - 1;
    }
    FisherYatesPermutes(arr, draws);
  }

  /** The deck `createDeck` returns in each mode; whatever the mode, it is a permutation of the full deck. */
  ghost function DeckFor(mode: DebugMode, draws: seq<nat>): (d: seq<Card>)
    requires mode.ModeOff? ==> ValidDraws(16, draws)
    ensures |d| == 16 && IsDeckPermutation(d)
  {
    match mode
    case ModeSolved =>
      SolvedDeckIsPermutation();
      SolvedDeck
    case ModeOneMove =>
      OneMoveDeckIsPermutation();
      OneMoveDeck()
    case ModeOff =>
      FisherYatesPermutes(AllCards(), draws);
      DeckPermutationIsReordering(FisherYates(AllCards(), draws));
      FisherYates(AllCards(), draws)
  }

  /** `createDeck`: a copy of the solved layout, the one-move layout, or a shuffled full deck. */
  method CreateDeck(mode: DebugMode, draws: seq<nat>) returns (deck: array<Card>)
    requires mode.ModeOff? ==> ValidDraws(16, draws)
    ensures fresh(deck)
    ensures deck[..] == DeckFor(mode, draws)
  {
    match mode {
    case ModeSolved =>
      deck := new Card[16](k requires 0 <= k < 16 => SolvedDeck[k]);
      assert deck[..] == SolvedDeck;
    case ModeOneMove =>
      deck := new Card[16](k requires 0 <= k < 16 => SolvedDeck[k]);
      assert deck[..] == SolvedDeck;
      deck[0], deck[1] := deck[1], deck[0];
      assert deck[..] == OneMoveDeck();
    case ModeOff =>
      var full := FullDeck();
      deck := Shuffle(full, draws);
    }
  }
}
