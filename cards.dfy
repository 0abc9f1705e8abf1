/**
 * Card identifiers. A card is one rank paired with one suit; in the game it is
 * carried as the two-character token `rank + suit` (for example "AD").
 */
module Cards {
  import opened Wrappers

  datatype Rank = A | J | Q | K
  datatype Suit = S | H | D | C

  datatype Card = Card(rank: Rank, suit: Suit)

  /** The suit and rank orders that the full deck enumerates. */
  const Suits: seq<Suit> := [S, H, D, C]
  const Ranks: seq<Rank> := [A, J, Q, K]

  function RankChar(r: Rank): char
  {
    match r
    case A => 'A'
    case J => 'J'
    case Q => 'Q'
    case K => 'K'
  }

  function SuitChar(s: Suit): char
  {
    match s
    case S => 'S'
    case H => 'H'
    case D => 'D'
    case C => 'C'
  }

  /** The token of a card: its rank character followed by its suit character. */
  function Cid(c: Card): (t: string)
    ensures |t| == 2
  {
    [RankChar(c.rank), SuitChar(c.suit)]
  }

  /** Reads a token back; anything that is not a rank character followed by a suit character is rejected. */
  function ParseCid(t: string): (r: Option<Card>)
    ensures r.Some? ==> Cid(r.value) == t
  {
    if |t| != 2 then None
    else
      var rank := match t[0]
        case 'A' => Some(A)
        case 'J' => Some(J)
        case 'Q' => Some(Q)
        case 'K' => Some(K)
        case _ => None;
      var suit := match t[1]
        case 'S' => Some(S)
        case 'H' => Some(H)
        case 'D' => Some(D)
        case 'C' => Some(C)
        case _ => None;
      if rank.Some? && suit.Some? then Some(Card(rank.value, suit.value)) else None
  }

  lemma ParseCidOfCid(c: Card)
    ensures ParseCid(Cid(c)) == Some(c)
  {
  }

  /** Different cards have different tokens. */
  lemma CidInjective(c: Card, d: Card)
    ensures Cid(c) == Cid(d) ==> c == d
  {
    ParseCidOfCid(c);
    ParseCidOfCid(d);
  }

  /**
   * The validator compares `t[0]` of two tokens for the rank and `t[1]` for the
   * suit; comparing those characters is comparing the cards' ranks and suits.
   */
  lemma CidCharsDecide(c: Card, d: Card)
    ensures Cid(c)[0] == Cid(d)[0] <==> c.rank == d.rank
    ensures Cid(c)[1] == Cid(d)[1] <==> c.suit == d.suit
  {
  }

  /** The full deck in the order the nested suit/rank loops push it: suit-major, rank-minor. */
  function AllCards(): (d: seq<Card>)
    ensures |d| == 16
  {
    seq(16, i requires 0 <= i < 16 => Card(Ranks[i % 4], Suits[i / 4]))
  }

  function RankIndex(r: Rank): (i: nat)
    ensures i < 4 && Ranks[i] == r
  {
    match r
    case A => 0
    case J => 1
    case Q => 2
    case K => 3
  }

  function SuitIndex(s: Suit): (i: nat)
    ensures i < 4 && Suits[i] == s
  {
    match s
    case S => 0
    case H => 1
    case D => 2
    case C => 3
  }

  ghost predicate Distinct<T>(d: seq<T>)
  {
    forall i, j :: 0 <= i < j < |d| ==> d[i] != d[j]
  }

  /** A deck is valid when it holds 16 cards and every card exactly once. */
  ghost predicate IsDeckPermutation(d: seq<Card>)
  {
    |d| == 16 && forall c: Card :: multiset(d)[c] == 1
  }

  lemma {:induction false} AllCardsAt(c: Card)
    ensures AllCards()[4 * SuitIndex(c.suit) + RankIndex(c.rank)] == c
  {
    var i := 4 * SuitIndex(c.suit) + RankIndex(c.rank);
    assert i % 4 == RankIndex(c.rank) && i / 4 == SuitIndex(c.suit);
  }

  /** Every rank is paired with every suit, and no pairing comes twice. */
  lemma AllCardsComplete()
    ensures Distinct(AllCards())
    ensures forall c: Card :: c in AllCards()
  {
    var d := AllCards();
    forall i, j | 0 <= i < j < 16 ensures d[i] != d[j] {
      assert i % 4 != j % 4 || i / 4 != j / 4;
    }
    forall c: Card ensures c in d {
      AllCardsAt(c);
    }
  }

  /** The 16 tokens the full deck pushes are pairwise distinct. */
  lemma FullDeckTokensDistinct()
    ensures Distinct(seq(16, i requires 0 <= i < 16 => Cid(AllCards()[i])))
  {
    AllCardsComplete();
    var tokens := seq(16, i requires 0 <= i < 16 => Cid(AllCards()[i]));
    forall i, j | 0 <= i < j < 16 ensures tokens[i] != tokens[j] {
      CidInjective(AllCards()[i], AllCards()[j]);
    }
  }

  lemma {:induction false} DistinctCount<T>(d: seq<T>, x: T)
    requires Distinct(d) && x in d
    ensures multiset(d)[x] == 1
  {
    if d[0] == x {
      assert x !in d[1..];
    } else {
      DistinctCount(d[1..], x);
    }
    assert d == [d[0]] + d[1..];
  }

  lemma {:induction false} RepeatCount<T>(d: seq<T>, i: nat, j: nat)
    requires i < j < |d| && d[i] == d[j]
    ensures multiset(d)[d[i]] >= 2
  {
    assert d == d[..j] + d[j..];
    assert d[i] in d[..j];
    assert d[j] in d[j..];
  }

  /** The full deck holds each of the 16 cards exactly once. */
  lemma FullDeckOnce()
    ensures forall c: Card :: multiset(AllCards())[c] == 1
  {
    AllCardsComplete();
    forall c: Card ensures multiset(AllCards())[c] == 1 {
      DistinctCount(AllCards(), c);
    }
  }

  /** A valid deck is exactly a reordering of the full deck. */
  lemma DeckPermutationIsReordering(d: seq<Card>)
    ensures IsDeckPermutation(d) <==> multiset(d) == multiset(AllCards())
  {
    FullDeckOnce();
    if multiset(d) == multiset(AllCards()) {
      assert |d| == |multiset(d)| == |multiset(AllCards())| == 16;
    }
    if IsDeckPermutation(d) {
      assert forall c: Card :: multiset(d)[c] == multiset(AllCards())[c];
      assert multiset(d) == multiset(AllCards());
    }
  }

  /** A valid deck holds no card twice. */
  lemma DeckPermutationFacts(d: seq<Card>)
    requires IsDeckPermutation(d)
    ensures Distinct(d)
  {
    forall i, j | 0 <= i < j < |d| ensures d[i] != d[j] {
      if d[i] == d[j] {
        RepeatCount(d, i, j);
        assert false;
      }
    }
  }

  lemma {:induction false} DistinctCardinality<T>(d: seq<T>)
    requires Distinct(d)
    ensures |(set x | x in d)| == |d|
  {
    if d == [] {
      assert (set x | x in d) == {};
    } else {
      var rest := d[1..];
      assert Distinct(rest) by {
        forall i, j | 0 <= i < j < |rest| ensures rest[i] != rest[j] {
          assert rest[i] == d[i + 1] && rest[j] == d[j + 1];
        }
      }
      DistinctCardinality(rest);
      assert (set x | x in d) == {d[0]} + (set x | x in rest);
      assert d[0] !in (set x | x in rest);
    }
  }

  /** Sixteen pairwise distinct cards can only be the full deck in some order. */
  lemma DistinctDeckIsPermutation(d: seq<Card>)
    requires |d| == 16 && Distinct(d)
    ensures IsDeckPermutation(d)
  {
    AllCardsComplete();
    var full := set x | x in AllCards();
    var held := set x | x in d;
    DistinctCardinality(AllCards());
    DistinctCardinality(d);
    assert held <= full;
    assert |full - held| == |full| - |held| == 0;
    forall c: Card ensures multiset(d)[c] == 1 {
      assert c in full;
      assert c in held;
      DistinctCount(d, c);
    }
  }

  /** `fullDeck`: the nested loops over suits and ranks, pushing `rank + suit`. */
  method FullDeck() returns (deck: seq<Card>)
    ensures deck == AllCards()
    ensures forall c: Card :: multiset(deck)[c] == 1
  {
    deck := [];
    for si := 0 to |Suits|
      invariant deck == AllCards()[..4 * si]
    {
      var s := Suits[si];
      for ri := 0 to |Ranks|
        invariant deck == AllCards()[..4 * si + ri]
      {
        assert AllCards()[4 * si + ri] == Card(Ranks[ri], s);
        assert AllCards()[..4 * si + ri + 1] == AllCards()[..4 * si + ri] + [AllCards()[4 * si + ri]];
        deck := deck + [Card(Ranks[ri], s)];
      }
    }
    FullDeckOnce();
  }
}
