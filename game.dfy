/**
 * The interaction state machine: the selection, the drag session with its lock
 * and start coordinates, the completed flag, and the grid of 16 cells.
 *
 * `Snapshot` is the whole state as a value; each handler of the game is a
 * function from the old snapshot to the new one, and the `Session` class keeps
 * the state in fields and an array and is proved to follow those functions.
 */
module Game {
  import opened Wrappers
  import opened Cards
  import opened Swap
  import Deck
  import Validator

  /** `DRAG_THRESHOLD`, in pixels. */
  const DragThreshold: int := 8

  /** `Math.hypot(dx, dy) < DRAG_THRESHOLD`, compared squared so that it stays in integers. */
  predicate IsTap(dx: int, dy: int)
  {
    dx * dx + dy * dy < DragThreshold * DragThreshold
  }

  datatype Snapshot = Snapshot(
    cards: seq<Card>,        // the cid of each cell, by slot
    selected: Option<nat>,   // `selectedCard`
    dragged: Option<nat>,    // `draggedCard`
    lock: bool,              // `interactionLock`
    startX: int,             // `startX`
    startY: int,             // `startY`
    completed: bool          // `gameCompleted`
  )

  ghost predicate InGrid(slot: Option<nat>)
  {
    slot.Some? ==> slot.value < 16
  }

  ghost predicate WellFormed(s: Snapshot)
  {
    |s.cards| == 16 && InGrid(s.selected) && InGrid(s.dragged)
  }

  /**
   * What every reachable state satisfies: the grid holds the full deck, and the
   * lock is held exactly while a card is being dragged.
   */
  ghost predicate Inv(s: Snapshot)
  {
    WellFormed(s) && IsDeckPermutation(s.cards) && (s.lock <==> s.dragged.Some?)
  }

  /** The state right after the page loads (or `resetGame` runs) with a deck of the given mode. */
  ghost function Initial(mode: Deck.DebugMode, draws: seq<nat>): Snapshot
    requires mode.ModeOff? ==> Deck.ValidDraws(16, draws)
  {
    Snapshot(Deck.DeckFor(mode, draws), None, None, false, 0, 0, false)
  }

  /** The cid exchange of `swapClickAnimation` and `swapDragAnimation`. */
  ghost function Swapped(s: Snapshot, a: nat, b: nat): Snapshot
    requires |s.cards| == 16 && a < 16 && b < 16
  {
    s.(cards := SwapAt(s.cards, a, b))
  }

  /** `checkVictory`. */
  ghost function VictoryChecked(s: Snapshot): Snapshot
    requires |s.cards| == 16
  {
    if s.completed then s else s.(completed := Validator.Solved(s.cards))
  }

  /** `clearSelection`. */
  ghost function SelectionCleared(s: Snapshot): Snapshot
  {
    s.(selected := None)
  }

  /** `onCardClick`: select, deselect, or swap with the selected card. */
  ghost function Clicked(s: Snapshot, card: nat): Snapshot
    requires WellFormed(s) && card < 16
  {
    if s.lock || s.dragged.Some? then s
    else if s.selected.None? then s.(selected := Some(card))
    else if s.selected.value == card then SelectionCleared(s)
    else SelectionCleared(VictoryChecked(Swapped(s, s.selected.value, card)))
  }

  /** `startDrag`. */
  ghost function DragStarted(s: Snapshot, x: int, y: int, card: nat): Snapshot
  {
    if s.lock then s
    else s.(lock := true, dragged := Some(card), startX := x, startY := y)
  }

  /** `moveDrag`, without the visual follow. */
  ghost function DragMoved(s: Snapshot): Snapshot
  {
    if s.dragged.None? then s else SelectionCleared(s)
  }

  /** `endDrag`: a short release is a tap on the origin; a long one swaps onto another card under the pointer. */
  ghost function DragEnded(s: Snapshot, x: int, y: int, target: Option<nat>): Snapshot
    requires WellFormed(s) && InGrid(target)
  {
    if s.dragged.None? then s
    else
      var origin := s.dragged.value;
      if IsTap(x - s.startX, y - s.startY) then
        Clicked(s.(dragged := None, lock := false), origin)
      else
        var dropped :=
          if target.Some? && target.value != origin
          then VictoryChecked(Swapped(s, origin, target.value))
          else s;
        dropped.(dragged := None, lock := false)
  }

  /** `resetGame`: initial flags and a fresh deck; the start coordinates are left as they were. */
  ghost function GameReset(s: Snapshot, mode: Deck.DebugMode, draws: seq<nat>): Snapshot
    requires mode.ModeOff? ==> Deck.ValidDraws(16, draws)
  {
    Snapshot(Deck.DeckFor(mode, draws), None, None, false, s.startX, s.startY, false)
  }

  // ---------------------------------------------------------------------------
  // Tap-versus-drag classification

  /** Along one axis a displacement is a tap exactly when it is shorter than 8 pixels. */
  lemma TapOnAxis(d: int)
    ensures IsTap(d, 0) <==> -8 < d < 8
  {
    if d >= 8 {
      assert d * d >= 8 * d >= 64;
    } else if d <= -8 {
      assert d * d >= -8 * d >= 64;
    } else if d >= 0 {
      assert d * d <= 7 * d <= 49;
    } else {
      assert d * d <= -7 * d <= 49;
    }
  }

  /** A displacement of exactly the threshold is a drag, not a tap. */
  lemma ThresholdIsDrag(dx: int, dy: int)
    requires dx * dx + dy * dy == DragThreshold * DragThreshold
    ensures !IsTap(dx, dy)
  {
  }

  // ---------------------------------------------------------------------------
  // Victory and reset

  /** Once completed, checking again changes nothing; otherwise the flag becomes whether the grid is solved. */
  lemma VictoryCheckedOnce(s: Snapshot)
    requires |s.cards| == 16
    ensures s.completed ==> VictoryChecked(s) == s
    ensures !s.completed ==> VictoryChecked(s) == s.(completed := Validator.Solved(s.cards))
    ensures VictoryChecked(VictoryChecked(s)) == VictoryChecked(s)
  {
  }

  /** A reset always yields a fresh idle session over a full deck. */
  lemma GameResetIsFresh(s: Snapshot, mode: Deck.DebugMode, draws: seq<nat>)
    requires mode.ModeOff? ==> Deck.ValidDraws(16, draws)
    ensures Inv(GameReset(s, mode, draws))
    ensures var r := GameReset(s, mode, draws);
      !r.completed && r.selected.None? && r.dragged.None? && !r.lock
  {
  }

  lemma InitialIsValid(mode: Deck.DebugMode, draws: seq<nat>)
    requires mode.ModeOff? ==> Deck.ValidDraws(16, draws)
    ensures Inv(Initial(mode, draws))
  {
  }

  // ---------------------------------------------------------------------------
  // Clicks

  lemma SwappedPreservesInv(s: Snapshot, a: nat, b: nat)
    requires Inv(s) && a < 16 && b < 16
    ensures Inv(Swapped(s, a, b))
  {
    SwapAtPermutes(s.cards, a, b);
  }

  /** No handler ever loses or duplicates a card, and the lock stays tied to the drag. */
  lemma ClickedPreservesInv(s: Snapshot, card: nat)
    requires Inv(s) && card < 16
    ensures Inv(Clicked(s, card))
  {
    if !s.lock && s.dragged.None? && s.selected.Some? && s.selected.value != card {
      SwappedPreservesInv(s, s.selected.value, card);
    }
  }

  /** A click while the lock is held or a card is being dragged does nothing. */
  lemma ClickedWhileBusy(s: Snapshot, card: nat)
    requires WellFormed(s) && card < 16 && (s.lock || s.dragged.Some?)
    ensures Clicked(s, card) == s
  {
  }

  /** The first click selects the card and leaves the grid as it was. */
  lemma ClickedSelects(s: Snapshot, card: nat)
    requires WellFormed(s) && card < 16 && !s.lock && s.dragged.None? && s.selected.None?
    ensures Clicked(s, card).selected == Some(card)
    ensures Clicked(s, card).cards == s.cards && Clicked(s, card).completed == s.completed
  {
  }

  /**
   * Clicking a second, different card swaps the two cids, checks for victory and
   * ends with no selection; no other slot changes.
   */
  lemma ClickedSwaps(s: Snapshot, card: nat)
    requires WellFormed(s) && card < 16 && !s.lock && s.dragged.None?
    requires s.selected.Some? && s.selected.value != card
    ensures var r := Clicked(s, card);
      r.selected.None? && r.cards == SwapAt(s.cards, s.selected.value, card) &&
      r.completed == (s.completed || Validator.Solved(r.cards)) &&
      r.lock == s.lock && r.dragged == s.dragged
    ensures forall i :: 0 <= i < 16 && i != card && i != s.selected.value ==>
      Clicked(s, card).cards[i] == s.cards[i]
  {
  }

  /** Tap, tap on two different cards: their cids are exchanged and nothing stays selected. */
  lemma TapTapSwaps(s: Snapshot, a: nat, b: nat)
    requires WellFormed(s) && a < 16 && b < 16 && a != b
    requires !s.lock && s.dragged.None? && s.selected.None?
    ensures Clicked(Clicked(s, a), b) == SelectionCleared(VictoryChecked(Swapped(s, a, b)))
  {
  }

  /** Tapping the same card twice restores the state exactly. */
  lemma TapTwiceRestores(s: Snapshot, a: nat)
    requires WellFormed(s) && a < 16
    requires !s.lock && s.dragged.None? && s.selected.None?
    ensures Clicked(Clicked(s, a), a) == s
  {
  }

  /** The completed flag does not guard clicks: a completed game still swaps on a second click. */
  lemma CompletedDoesNotGuardClicks(s: Snapshot, card: nat)
    requires WellFormed(s) && card < 16 && !s.lock && s.dragged.None?
    requires s.completed && s.selected.Some? && s.selected.value != card
    requires s.cards[card] != s.cards[s.selected.value]
    ensures Clicked(s, card).cards != s.cards
  {
    assert Clicked(s, card).cards[card] == s.cards[s.selected.value];
  }

  // ---------------------------------------------------------------------------
  // Drag sessions

  /** A press while the lock is held changes nothing: no new origin, no new start point. */
  lemma DragStartedWhileLocked(s: Snapshot, x: int, y: int, card: nat)
    requires s.lock
    ensures DragStarted(s, x, y, card) == s
  {
  }

  lemma DragStartedPreservesInv(s: Snapshot, x: int, y: int, card: nat)
    requires Inv(s) && card < 16
    ensures Inv(DragStarted(s, x, y, card))
    ensures !s.lock ==> DragStarted(s, x, y, card).dragged == Some(card)
  {
  }

  /** A second press during a drag never changes how the first one ends. */
  lemma SecondPressDropped(s: Snapshot, x2: int, y2: int, card2: nat, x: int, y: int, target: Option<nat>)
    requires WellFormed(s) && InGrid(target) && s.lock
    ensures DragEnded(DragStarted(s, x2, y2, card2), x, y, target) == DragEnded(s, x, y, target)
  {
    DragStartedWhileLocked(s, x2, y2, card2);
  }

  /** Moving during a drag drops any selection and touches nothing else. */
  lemma DragMovedClearsSelection(s: Snapshot)
    requires Inv(s)
    ensures s.dragged.Some? ==> DragMoved(s) == s.(selected := None)
    ensures s.dragged.None? ==> DragMoved(s) == s
    ensures Inv(DragMoved(s))
  {
  }

  /** A release closer than the threshold is handled as a click on the origin card. */
  lemma ShortReleaseIsClick(s: Snapshot, x: int, y: int, target: Option<nat>)
    requires WellFormed(s) && InGrid(target) && s.dragged.Some?
    requires IsTap(x - s.startX, y - s.startY)
    ensures DragEnded(s, x, y, target) == Clicked(s.(dragged := None, lock := false), s.dragged.value)
  {
  }

  /**
   * A release at or beyond the threshold never selects: it swaps the origin with
   * the target when there is a target other than the origin, and otherwise leaves
   * the grid alone.
   */
  lemma LongReleaseIsDrop(s: Snapshot, x: int, y: int, target: Option<nat>)
    requires WellFormed(s) && InGrid(target) && s.dragged.Some?
    requires !IsTap(x - s.startX, y - s.startY)
    ensures var r := DragEnded(s, x, y, target);
      r.selected == s.selected && r.dragged.None? && !r.lock &&
      (if target.Some? && target.value != s.dragged.value
       then r.cards == SwapAt(s.cards, s.dragged.value, target.value) &&
            r.completed == (s.completed || Validator.Solved(r.cards))
       else r.cards == s.cards && r.completed == s.completed)
  {
  }

  /** Every release ends with no dragged card and the lock free, and keeps the invariant. */
  lemma DragEndedReleases(s: Snapshot, x: int, y: int, target: Option<nat>)
    requires Inv(s) && InGrid(target)
    ensures DragEnded(s, x, y, target).dragged.None?
    ensures !DragEnded(s, x, y, target).lock
    ensures Inv(DragEnded(s, x, y, target))
  {
    if s.dragged.Some? {
      var origin := s.dragged.value;
      var free := s.(dragged := None, lock := false);
      if IsTap(x - s.startX, y - s.startY) {
        ShortReleaseIsClick(s, x, y, target);
        ClickedPreservesInv(free, origin);
      } else {
        LongReleaseIsDrop(s, x, y, target);
        if target.Some? && target.value != origin {
          SwapAtPermutes(s.cards, origin, target.value);
        }
      }
    }
  }

  /** A drag of exactly 8 pixels onto another card swaps, and never selects. */
  lemma ThresholdReleaseSwaps(s: Snapshot, x: int, y: int, target: nat)
    requires WellFormed(s) && target < 16 && s.dragged.Some? && s.dragged.value != target
    requires (x - s.startX) * (x - s.startX) + (y - s.startY) * (y - s.startY) == 64
    ensures DragEnded(s, x, y, Some(target)).cards == SwapAt(s.cards, s.dragged.value, target)
    ensures DragEnded(s, x, y, Some(target)).selected == s.selected
  {
    ThresholdIsDrag(x - s.startX, y - s.startY);
    LongReleaseIsDrop(s, x, y, Some(target));
  }

  // ---------------------------------------------------------------------------
  // An end-to-end run

  /** From the `ONE_MOVE` deck, tapping slot 0 and then slot 1 completes the game. */
  lemma OneMoveTapTapCompletes(draws: seq<nat>)
    ensures var r := Clicked(Clicked(Initial(Deck.ModeOneMove, draws), 0), 1);
      r.completed && r.cards == Deck.SolvedDeck && r.selected.None?
  {
    var s := Initial(Deck.ModeOneMove, draws);
    SwapAtInvolution(Deck.SolvedDeck, 0, 1);
    Validator.OneMoveDeckSwapSolves();
    TapTapSwaps(s, 0, 1);
  }

  /**
   * The game state, kept in module-level variables and the grid's cells in `script.js`.
   * The debug mode is fixed when the page loads and every reset reuses it.
   */
  class Session {
    const mode: Deck.DebugMode
    var grid: array<Card>
    var selected: Option<nat>
    var dragged: Option<nat>
    var lock: bool
    var startX: int
    var startY: int
    var completed: bool

    ghost function Model(): Snapshot
      reads this, grid
    {
      Snapshot(grid[..], selected, dragged, lock, startX, startY, completed)
    }

    ghost predicate Valid()
      reads this, grid
    {
      Inv(Model())
    }

    /** The initial variables and the first `render`. */
    constructor (mode: Deck.DebugMode, draws: seq<nat>)
      requires mode.ModeOff? ==> Deck.ValidDraws(16, draws)
      ensures Valid() && fresh(grid) && Model() == Initial(mode, draws) && this.mode == mode
    {
      this.mode := mode;
      selected, dragged := None, None;
      lock := false;
      startX, startY := 0, 0;
      completed := false;
      var deck := Deck.CreateDeck(mode, draws);
      grid := deck;
    }

    /** The cid exchange between two cells, which stay in place. */
    method SwapCids(a: nat, b: nat)
      requires Valid() && a < 16 && b < 16
      modifies grid
      ensures Valid() && Model() == Swapped(old(Model()), a, b)
    {
      var temp := grid[a];
      grid[a] := grid[b];
      grid[b] := temp;
      assert grid[..] == SwapAt(old(grid[..]), a, b);
      SwappedPreservesInv(old(Model()), a, b);
    }

    method CheckVictory()
      requires Valid()
      modifies this
      ensures Valid() && grid == old(grid)
      ensures Model() == VictoryChecked(old(Model()))
    {
      if completed {
        return;
      }
      var solved := Validator.IsSolved(grid[..]);
      if solved {
        completed := true;
      }
    }

    method ClearSelection()
      requires Valid()
      modifies this
      ensures Valid() && grid == old(grid)
      ensures Model() == SelectionCleared(old(Model()))
    {
      if selected.Some? {
        selected := None;
      }
    }

    method OnCardClick(card: nat)
      requires Valid() && card < 16
      modifies this, grid
      ensures Valid() && grid == old(grid)
      ensures Model() == Clicked(old(Model()), card)
    {
      if lock || dragged.Some? {
        return;
      }
      if selected.None? {
        ClearSelection();
        selected := Some(card);
        return;
      }
      if selected.value == card {
        ClearSelection();
        return;
      }
      SwapCids(selected.value, card);
      CheckVictory();
      ClearSelection();
    }

    method StartDrag(x: int, y: int, card: nat)
      requires Valid() && card < 16
      modifies this
      ensures Valid() && grid == old(grid)
      ensures Model() == DragStarted(old(Model()), x, y, card)
    {
      if lock {
        return;
      }
      lock := true;
      dragged := Some(card);
      startX, startY := x, y;
    }

    method MoveDrag(x: int, y: int)
      requires Valid()
      modifies this
      ensures Valid() && grid == old(grid)
      ensures Model() == DragMoved(old(Model()))
    {
      if dragged.None? {
        return;
      }
      ClearSelection();
    }

    /** `target` is the card under the release point, if any (`elementFromPoint` and `closest`). */
    method EndDrag(x: int, y: int, target: Option<nat>)
      requires Valid() && InGrid(target)
      modifies this, grid
      ensures Valid() && grid == old(grid)
      ensures Model() == DragEnded(old(Model()), x, y, target)
    {
      if dragged.None? {
        return;
      }
      ghost var s := Model();
      var dx := x - startX;
      var dy := y - startY;
      if IsTap(dx, dy) {
        ShortReleaseIsClick(s, x, y, target);
        var card := dragged.value;
        dragged := None;
        lock := false;
        OnCardClick(card);
        return;
      }
      LongReleaseIsDrop(s, x, y, target);
      if target.Some? && target.value != dragged.value {
        SwapCids(dragged.value, target.value);
        CheckVictory();
      }
      dragged := None;
      lock := false;
    }

    /** `resetGame`: the flags back to their initial values and a new deck rendered into new cells. */
    method ResetGame(draws: seq<nat>)
      requires mode.ModeOff? ==> Deck.ValidDraws(16, draws)
      modifies this
      ensures Valid() && fresh(grid)
      ensures Model() == GameReset(old(Model()), mode, draws)
    {
      completed := false;
      selected := None;
      dragged := None;
      lock := false;
      var deck := Deck.CreateDeck(mode, draws);
      grid := deck;
    }
  }

  /** The `ONE_MOVE` layout, tap slot 0, tap slot 1: the game is won. */
  method OneMoveSession() returns (won: bool, cards: seq<Card>)
    ensures won && cards == Deck.SolvedDeck
  {
    var session := new Session(Deck.ModeOneMove, []);
    session.OnCardClick(0);
    session.OnCardClick(1);
    OneMoveTapTapCompletes([]);
    won, cards := session.completed, session.grid[..];
  }

  /** A shuffled layout, tap slot 0 twice: no swap, no selection, not won. */
  method TapSameCardSession(draws: seq<nat>) returns (gridKept: bool, selection: Option<nat>, won: bool)
    requires Deck.ValidDraws(16, draws)
    ensures gridKept && selection.None? && !won
  {
    var session := new Session(Deck.ModeOff, draws);
    var before := session.grid[..];
    session.OnCardClick(0);
    session.OnCardClick(0);
    gridKept, selection, won := session.grid[..] == before, session.selected, session.completed;
  }
}
