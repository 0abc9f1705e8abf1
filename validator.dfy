/**
 * The solved validator. The grid is 16 slots in row-major order (row = slot / 4,
 * column = slot % 4). It is solved when each of the ten constraint groups
 * (four rows, four columns, and the diagonals {0,5,10,15} and {3,6,9,12})
 * has four different ranks and four different suits.
 */
module Validator {
  import opened Cards
  import opened Swap
  import Deck

  /** The entries of `cards` at slots with slot % 4 == c, from slot i on (the column filter). */
  function ColumnFrom(cards: seq<Card>, c: nat, i: nat): seq<Card>
    requires i <= |cards|
    decreases |cards| - i
  {
    if i == |cards| then []
    else (if i % 4 == c then [cards[i]] else []) + ColumnFrom(cards, c, i + 1)
  }

  /** The ten groups in the order the validator builds them: rows, columns, then the two diagonals. */
  function Groups(cards: seq<Card>): seq<seq<Card>>
    requires |cards| == 16
  {
    var rows := seq(4, r requires 0 <= r < 4 => cards[r * 4..r * 4 + 4]);
    var cols := seq(4, c requires 0 <= c < 4 => ColumnFrom(cards, c, 0));
    var diag1 := seq(4, k requires 0 <= k < 4 => cards[[0, 5, 10, 15][k]]);
    var diag2 := seq(4, k requires 0 <= k < 4 => cards[[3, 6, 9, 12][k]]);
    rows + cols + [diag1, diag2]
  }

  /** No rank repeats within the group, and no suit repeats within the group. */
  ghost predicate GroupValid(g: seq<Card>)
  {
    (forall m, n :: 0 <= m < n < |g| ==> g[m].rank != g[n].rank) &&
    (forall m, n :: 0 <= m < n < |g| ==> g[m].suit != g[n].suit)
  }

  /** The slot holding the k-th member of group g. */
  function Slot(g: nat, k: nat): (i: nat)
    requires g < 10 && k < 4
    ensures i < 16
  {
    if g < 4 then 4 * g + k
    else if g < 8 then 4 * k + (g - 4)
    else if g == 8 then 5 * k
    else 3 + 3 * k
  }

  predicate OnMainDiagonal(i: nat) { i / 4 == i % 4 }
  predicate OnAntiDiagonal(i: nat) { i / 4 + i % 4 == 3 }

  /** Two slots constrain each other when they share a row, a column or one of the two diagonals. */
  predicate SameLine(i: nat, j: nat)
  {
    i / 4 == j / 4 || i % 4 == j % 4 ||
    (OnMainDiagonal(i) && OnMainDiagonal(j)) ||
    (OnAntiDiagonal(i) && OnAntiDiagonal(j))
  }

  /** The puzzle's goal: any two different slots on a common line hold different ranks and different suits. */
  ghost predicate Solved(cards: seq<Card>)
    requires |cards| == 16
  {
    forall i: nat, j: nat :: i < 16 && j < 16 && i != j && SameLine(i, j) ==>
      cards[i].rank != cards[j].rank && cards[i].suit != cards[j].suit
  }

  lemma {:induction false} ColumnStep(cards: seq<Card>, c: nat, i: nat)
    requires c < 4 && i % 4 == 0 && i + 4 <= |cards|
    ensures ColumnFrom(cards, c, i) == [cards[i + c]] + ColumnFrom(cards, c, i + 4)
  {
    var r0, r1, r2, r3 := ColumnFrom(cards, c, i), ColumnFrom(cards, c, i + 1), ColumnFrom(cards, c, i + 2), ColumnFrom(cards, c, i + 3);
    assert (i + 1) % 4 == 1 && (i + 2) % 4 == 2 && (i + 3) % 4 == 3;
    assert r0 == (if c == 0 then [cards[i]] else []) + r1;
    assert r1 == (if c == 1 then [cards[i + 1]] else []) + r2;
    assert r2 == (if c == 2 then [cards[i + 2]] else []) + r3;
    assert r3 == (if c == 3 then [cards[i + 3]] else []) + ColumnFrom(cards, c, i + 4);
  }

  /** The column filter keeps exactly slots c, c+4, c+8, c+12. */
  lemma ColumnSlots(cards: seq<Card>, c: nat)
    requires |cards| == 16 && c < 4
    ensures ColumnFrom(cards, c, 0) == [cards[c], cards[4 + c], cards[8 + c], cards[12 + c]]
  {
    ColumnStep(cards, c, 12);
    assert ColumnFrom(cards, c, 16) == [];
    assert ColumnFrom(cards, c, 12) == [cards[12 + c]];
    ColumnStep(cards, c, 8);
    assert ColumnFrom(cards, c, 8) == [cards[8 + c], cards[12 + c]];
    ColumnStep(cards, c, 4);
    assert ColumnFrom(cards, c, 4) == [cards[4 + c], cards[8 + c], cards[12 + c]];
    ColumnStep(cards, c, 0);
  }

  /** The groups the validator builds are exactly the rows, columns and diagonals of the grid. */
  lemma GroupsAreSlots(cards: seq<Card>)
    requires |cards| == 16
    ensures |Groups(cards)| == 10
    ensures forall g :: 0 <= g < 10 ==> |Groups(cards)[g]| == 4
    ensures forall g, k :: 0 <= g < 10 && 0 <= k < 4 ==> Groups(cards)[g][k] == cards[Slot(g, k)]
  {
    var gs: seq<seq<Card>> := Groups(cards);
    forall g | 0 <= g < 10 ensures |gs[g]| == 4 && forall k :: 0 <= k < 4 ==> gs[g][k] == cards[Slot(g, k)] {
      if g < 4 {
        assert gs[g] == cards[g * 4..g * 4 + 4];
      } else if g < 8 {
        ColumnSlots(cards, g - 4);
        assert gs[g] == ColumnFrom(cards, g - 4, 0);
      } else if g == 8 {
        assert gs[g] == seq(4, k requires 0 <= k < 4 => cards[[0, 5, 10, 15][k]]);
      } else {
        assert gs[g] == seq(4, k requires 0 <= k < 4 => cards[[3, 6, 9, 12][k]]);
      }
    }
  }

  lemma DivMod4(q: nat, r: nat)
    requires r < 4
    ensures (4 * q + r) / 4 == q && (4 * q + r) % 4 == r
  {
  }

  /** Two members of one group sit on a common line. */
  lemma SlotsShareLine(g: nat, m: nat, n: nat)
    requires g < 10 && m < n < 4
    ensures Slot(g, m) != Slot(g, n) && SameLine(Slot(g, m), Slot(g, n))
  {
    if g < 4 {
      DivMod4(g, m);
      DivMod4(g, n);
    } else if g < 8 {
      DivMod4(m, g - 4);
      DivMod4(n, g - 4);
    } else if g == 8 {
      DivMod4(m, m);
      DivMod4(n, n);
    } else {
      DivMod4(m, 3 - m);
      DivMod4(n, 3 - n);
    }
  }

  /** Two slots on a common line are two members of one group. */
  lemma LineWitness(i: nat, j: nat) returns (g: nat, m: nat, n: nat)
    requires i < 16 && j < 16 && i != j && SameLine(i, j)
    ensures g < 10 && m < 4 && n < 4 && m != n
    ensures Slot(g, m) == i && Slot(g, n) == j
  {
    if i / 4 == j / 4 {
      g, m, n := i / 4, i % 4, j % 4;
    } else if i % 4 == j % 4 {
      g, m, n := 4 + i % 4, i / 4, j / 4;
    } else if OnMainDiagonal(i) && OnMainDiagonal(j) {
      g, m, n := 8, i % 4, j % 4;
    } else {
      g, m, n := 9, i / 4, j / 4;
    }
  }

  /** Every group valid means the puzzle's goal holds. */
  lemma GroupsValidGiveSolved(cards: seq<Card>)
    requires |cards| == 16
    requires forall g :: 0 <= g < 10 ==> GroupValid(Groups(cards)[g])
    ensures Solved(cards)
  {
    var gs: seq<seq<Card>> := Groups(cards);
    GroupsAreSlots(cards);
    forall i: nat, j: nat | i < 16 && j < 16 && i != j && SameLine(i, j)
      ensures cards[i].rank != cards[j].rank && cards[i].suit != cards[j].suit
    {
      var g, m, n := LineWitness(i, j);
      assert GroupValid(gs[g]);
      assert gs[g][m] == cards[i] && gs[g][n] == cards[j];
      if m < n {
        assert gs[g][m].rank != gs[g][n].rank;
      } else {
        assert gs[g][n].rank != gs[g][m].rank;
      }
    }
  }

  /** The puzzle's goal means every group is valid. */
  lemma SolvedGivesGroupsValid(cards: seq<Card>, g: nat)
    requires |cards| == 16 && g < 10 && Solved(cards)
    ensures GroupValid(Groups(cards)[g])
  {
    var gs: seq<seq<Card>> := Groups(cards);
    GroupsAreSlots(cards);
    forall m: nat, n: nat | m < n < 4
      ensures gs[g][m].rank != gs[g][n].rank && gs[g][m].suit != gs[g][n].suit
    {
      SlotsShareLine(g, m, n);
      assert gs[g][m] == cards[Slot(g, m)] && gs[g][n] == cards[Slot(g, n)];
    }
  }

  /** Checking the ten groups decides exactly the puzzle's goal. */
  lemma GroupsDecideSolved(cards: seq<Card>)
    requires |cards| == 16
    ensures (forall g :: 0 <= g < 10 ==> GroupValid(Groups(cards)[g])) <==> Solved(cards)
  {
    if forall g :: 0 <= g < 10 ==> GroupValid(Groups(cards)[g]) {
      GroupsValidGiveSolved(cards);
    }
    if Solved(cards) {
      forall g | 0 <= g < 10 ensures GroupValid(Groups(cards)[g]) {
        SolvedGivesGroupsValid(cards, g);
      }
    }
  }

  /**
   * `isSolved`: walks the ten groups, keeping the suits and ranks seen so far in
   * the current group, and answers false at the first repetition.
   */
  method IsSolved(cards: seq<Card>) returns (ok: bool)
    requires |cards| == 16
    ensures ok <==> Solved(cards)
  {
    var groups := Groups(cards);
    GroupsAreSlots(cards);
    GroupsDecideSolved(cards);
    for gi := 0 to |groups|
      invariant forall g :: 0 <= g < gi ==> GroupValid(groups[g])
    {
      var valid := GroupHasNoRepeat(groups[gi]);
      if !valid {
        return false;
      }
    }
    return true;
  }

  /** The scan of one group with the sets of suits and ranks seen so far. */
  method GroupHasNoRepeat(group: seq<Card>) returns (ok: bool)
    ensures ok <==> GroupValid(group)
  {
    var suits: set<Suit> := {};
    var ranks: set<Rank> := {};
    for k := 0 to |group|
      invariant suits == set m | 0 <= m < k :: group[m].suit
      invariant ranks == set m | 0 <= m < k :: group[m].rank
      invariant forall m, n :: 0 <= m < n < k ==> group[m].rank != group[n].rank
      invariant forall m, n :: 0 <= m < n < k ==> group[m].suit != group[n].suit
    {
      var c := group[k];
      if c.suit in suits {
        var m :| 0 <= m < k && group[m].suit == c.suit;
        return false;
      }
      if c.rank in ranks {
        var m :| 0 <= m < k && group[m].rank == c.rank;
        return false;
      }
      suits := suits + {c.suit};
      ranks := ranks + {c.rank};
    }
    return true;
  }

  /** A group of four given by its members is valid exactly when no two of them share a rank or a suit. */
  lemma GroupOfFour(g: seq<Card>)
    requires |g| == 4
    requires g[0].rank != g[1].rank && g[0].rank != g[2].rank && g[0].rank != g[3].rank
    requires g[1].rank != g[2].rank && g[1].rank != g[3].rank && g[2].rank != g[3].rank
    requires g[0].suit != g[1].suit && g[0].suit != g[2].suit && g[0].suit != g[3].suit
    requires g[1].suit != g[2].suit && g[1].suit != g[3].suit && g[2].suit != g[3].suit
    ensures GroupValid(g)
  {
  }

  /** The members of group g in `SOLVED_DECK` share no rank and no suit. */
  lemma SolvedDeckGroup(g: nat)
    requires g < 10
    ensures var d := Deck.SolvedDeck; GroupValid([d[Slot(g, 0)], d[Slot(g, 1)], d[Slot(g, 2)], d[Slot(g, 3)]])
  {
    var d := Deck.SolvedDeck;
    if g == 0 {
      GroupOfFour([d[0], d[1], d[2], d[3]]);
    } else if g == 1 {
      GroupOfFour([d[4], d[5], d[6], d[7]]);
    } else if g == 2 {
      GroupOfFour([d[8], d[9], d[10], d[11]]);
    } else if g == 3 {
      GroupOfFour([d[12], d[13], d[14], d[15]]);
    } else if g == 4 {
      GroupOfFour([d[0], d[4], d[8], d[12]]);
    } else if g == 5 {
      GroupOfFour([d[1], d[5], d[9], d[13]]);
    } else if g == 6 {
      GroupOfFour([d[2], d[6], d[10], d[14]]);
    } else if g == 7 {
      GroupOfFour([d[3], d[7], d[11], d[15]]);
    } else if g == 8 {
      GroupOfFour([d[0], d[5], d[10], d[15]]);
    } else {
      GroupOfFour([d[3], d[6], d[9], d[12]]);
    }
  }

  /** `isSolved` holds of `SOLVED_DECK`. */
  lemma SolvedDeckIsSolved()
    ensures Solved(Deck.SolvedDeck)
  {
    var d := Deck.SolvedDeck;
    GroupsAreSlots(d);
    forall g | 0 <= g < 10 ensures GroupValid(Groups(d)[g]) {
      SolvedDeckGroup(g);
      assert Groups(d)[g] == [d[Slot(g, 0)], d[Slot(g, 1)], d[Slot(g, 2)], d[Slot(g, 3)]];
    }
    GroupsValidGiveSolved(d);
  }

  /** The `ONE_MOVE` deck is not solved: column 0 holds the queen of spades and the queen of hearts. */
  lemma OneMoveDeckNotSolved()
    ensures !Solved(Deck.OneMoveDeck())
  {
    var d := Deck.OneMoveDeck();
    assert SameLine(0, 12) && d[0].rank == Q && d[12].rank == Q;
  }

  /** Exchanging slots 0 and 1 of the `ONE_MOVE` deck solves it. */
  lemma OneMoveDeckSwapSolves()
    ensures Solved(SwapAt(Deck.OneMoveDeck(), 0, 1))
  {
    SwapAtInvolution(Deck.SolvedDeck, 0, 1);
    SolvedDeckIsSolved();
  }
}
