# Card sudoku: a verified model of the game engine

The game is a 4×4 "card sudoku" that runs in the browser. Sixteen cards lie in a
row-major grid: the aces, jacks, queens and kings of spades, hearts, diamonds and clubs.
Each cell carries a two-character `cid` token, rank then suit (for example `"AD"`).
The player exchanges two cards in one of two ways:

- tap one card, then another;
- drag one card onto another.

The puzzle is solved once no rank and no suit repeats in any of the ten constraint
groups: the four rows, the four columns, the main diagonal {0,5,10,15} and the
anti-diagonal {3,6,9,12}.

The model covers the whole engine in `script.js`:

- **Cards and tokens** (`cards.dfy`, module `Cards`). A `Card` is a rank and a suit.
  - `Cid` and `ParseCid` translate between a card and its token.
  - `FullDeck` is the nested suit/rank push loop of `fullDeck`.
  - `IsDeckPermutation` says a grid holds every card exactly once.
- **The swap** (`swap.dfy`, module `Swap`). It exchanges the tokens of two slots; the
  cells stay in place.
- **Decks** (`deck.dfy`, module `Deck`).
  - `SOLVED_DECK` and the `ONE_MOVE` layout.
  - `shuffle` is an in-place Fisher–Yates loop on a fresh array. It is specified by
    `FisherYates`.
  - `createDeck` chooses a deck by debug mode.
- **The validator** (`validator.dfy`, module `Validator`).
  - `Groups` builds the ten groups as `isSolved` does: row slices, the column filter,
    then the two diagonals.
  - `IsSolved` is the scan with the sets of suits and ranks seen so far.
  - `Solved` is an independent definition of the goal: any two different slots on a
    common row, column or diagonal hold different ranks and different suits.
  - The two are proved equivalent.
- **The interaction state machine** (`game.dfy`, module `Game`).
  - `Snapshot` is the whole state as a value: the grid, the selection, the dragged
    card, the lock, the start point and the completed flag.
  - Each handler is a step function on snapshots.
  - The class `Session` keeps the state in fields and an `array<Card>` grid. Each of
    its methods is proved to move `Model()` by its step function and to keep the
    invariant `Inv`. `Inv` says the grid is a permutation of the full deck, and the
    lock is held exactly while a card is being dragged.

How the model handles the outside world:

- The debug mode is a parameter of the constructor, kept in the constant field
  `Session.mode`; `ResetGame` reuses it, as `resetGame` reuses `currentDebugMode`.
- The random choices of `shuffle` are a parameter `draws`: `draws[i]` is the index
  `j <= i` drawn when slot `i` is handled.
- The card under the release point (`elementFromPoint(...).closest(...)`) is a
  parameter `target: Option<nat>`.
- `Math.hypot(dx, dy) < 8` is the integer test `dx*dx + dy*dy < 64`.
- Selected and dragged cards are slot indices. The cell elements never move, so a
  slot index names a cell.

The model keeps these behaviours of the code, where a reader might expect otherwise:

- `onCardClick` does not check `gameCompleted`. Only `pointer-events: none`, set in
  `showVictory`, stops clicks after a win, and that is outside the model.
  `CompletedDoesNotGuardClicks` states this.
- A selection and a drag can coexist. `startDrag` does not clear the selection; only
  `moveDrag` does.
- A release at a distance of exactly 8 is a drag (`<`, not `<=`). See `ThresholdIsDrag`.
- `resetGame` leaves `startX`/`startY` as they were.

## Model

| member | source | states |
|---|---|---|
| Cards.Cid | script.js:55 | the token of a card is two characters long: its rank, then its suit |
| Cards.ParseCid | script.js:250-251 | a token is read back only when it is a rank character followed by a suit character, and then re-encodes to itself |
| Cards.ParseCidOfCid | script.js:250-251 | reading a card's token gives the card back |
| Cards.CidCharsDecide | script.js:250-251 | `c[0]` of two tokens is equal exactly when their ranks are, and `c[1]` exactly when their suits are |
| Cards.CidInjective | script.js:55 | two cards with the same token are the same card |
| Cards.AllCardsComplete | script.js:23-24 | the full deck has no repeated card and contains every rank paired with every suit |
| Cards.AllCards | script.js:51-59 | the full deck as a sequence: slot i holds rank i % 4 of suit i / 4, 16 slots in all |
| Cards.FullDeckTokensDistinct | script.js:51-59 | the 16 tokens of the full deck are pairwise distinct |
| Cards.FullDeckOnce | script.js:51-59 | every card occurs exactly once in the full deck |
| Cards.DeckPermutationIsReordering | script.js:38-59 | a grid holds 16 cards with each card once exactly when it is a reordering of the full deck |
| Cards.DeckPermutationFacts | script.js:38-59 | a valid deck never holds the same card in two slots |
| Cards.DistinctDeckIsPermutation | script.js:16-21 | any 16 pairwise-distinct cards form a valid deck |
| Cards.FullDeck | script.js:51-59 | the nested loops push the cards suit-major and rank-minor; every card appears exactly once |
| Swap.SwapAt | script.js:106-109 | a swap exchanges the two slots' tokens and leaves every other slot and the length unchanged |
| Swap.SwapAtPermutes | script.js:139-141 | a swap keeps the multiset of tokens |
| Swap.SwapAtInvolution | script.js:106-109 | swapping the same two slots twice restores the grid |
| Swap.SwapAtSymmetric | script.js:139-141 | the order in which the two cells are named does not matter |
| Deck.SolvedDeck | script.js:16-21 | the 16 cards of the solved layout, row by row |
| Deck.OneMoveDeck | script.js:42-45 | the `ONE_MOVE` layout, `SOLVED_DECK` with slots 0 and 1 exchanged, has 16 slots |
| Deck.SolvedDeckIsPermutation | script.js:16-21 | `SOLVED_DECK` holds every card exactly once |
| Deck.OneMoveDeckIsPermutation | script.js:42-45 | the `ONE_MOVE` layout holds every card exactly once |
| Deck.ShuffleSteps | script.js:302-305 | the loop steps for slots i, i-1, ..., 1: each exchanges slot i with the drawn slot j |
| Deck.FisherYates | script.js:300-307 | the shuffle of a copy of the input: the steps from the last slot down to slot 1 |
| Deck.ShuffleStepsPermutes | script.js:302-305 | applying the steps for slots i down to 1 keeps the length and the multiset |
| Deck.FisherYatesPermutes | script.js:300-307 | for any draws with `j <= i`, the shuffle keeps the length and the multiset of its input |
| Deck.Shuffle | script.js:300-307 | the loop on a fresh copy produces exactly `FisherYates(arr, draws)`, a permutation of the input |
| Deck.DeckFor | script.js:38-49 | in every mode the deck has 16 slots and holds every card exactly once |
| Deck.CreateDeck | script.js:38-49 | a fresh array holding the solved layout, the one-move layout, or the shuffle of the full deck, by mode |
| Validator.Slot | script.js:253-256 | the k-th member of group g is a slot of the 16-cell grid |
| Validator.ColumnFrom | script.js:254 | the column filter: the entries at slots with slot % 4 == c, in slot order |
| Validator.Groups | script.js:253-257 | the four row slices, the four column filters, then the diagonals {0,5,10,15} and {3,6,9,12} |
| Validator.GroupValid | script.js:259-266 | a group passes when no two members share a suit and no two share a rank |
| Validator.ColumnStep | script.js:254 | across one row of four slots, the column filter keeps exactly slot `i + c` |
| Validator.ColumnSlots | script.js:254 | `filter((_, i) => i % 4 === c)` keeps exactly slots c, c+4, c+8, c+12, in order |
| Validator.GroupsAreSlots | script.js:253-257 | there are ten groups of four, and member k of group g is the card at `Slot(g, k)` |
| Validator.SlotsShareLine | script.js:253-257 | two members of one group are different slots on a common row, column or diagonal |
| Validator.LineWitness | script.js:253-257 | two different slots on a common line are two members of one group |
| Validator.GroupsValidGiveSolved | script.js:248-269 | if every group repeats no rank and no suit, the grid meets the goal |
| Validator.SolvedGivesGroupsValid | script.js:248-269 | if the grid meets the goal, each group repeats no rank and no suit |
| Validator.GroupsDecideSolved | script.js:248-269 | all ten groups valid if and only if the grid meets the goal |
| Validator.IsSolved | script.js:248-269 | the group walk answers true exactly when the grid meets the goal |
| Validator.GroupHasNoRepeat | script.js:259-266 | the scan with the sets of suits and ranks seen answers true exactly when no rank and no suit repeats in the group |
| Validator.GroupOfFour | script.js:259-266 | four cards with pairwise different ranks and suits form a valid group |
| Validator.SolvedDeckGroup | script.js:16-21 | each of the ten groups of `SOLVED_DECK` repeats no rank and no suit |
| Validator.SolvedDeckIsSolved | script.js:16-21 | `SOLVED_DECK` meets the goal |
| Validator.OneMoveDeckNotSolved | script.js:42-45 | the `ONE_MOVE` layout does not meet the goal: column 0 holds two queens |
| Validator.OneMoveDeckSwapSolves | script.js:42-45 | exchanging slots 0 and 1 of the `ONE_MOVE` layout meets the goal |
| Game.IsTap | script.js:219-225 | a release is a tap when the squared displacement is below 8 * 8 |
| Game.Initial | script.js:30-35 | the page-load state: the deck of the mode, no selection, no drag, the lock free, start point 0, not completed |
| Game.Swapped | script.js:106-109 | the cid exchange of two cells, everything else kept |
| Game.VictoryChecked | script.js:275-285 | nothing once completed; otherwise the completed flag becomes whether the grid meets the goal |
| Game.SelectionCleared | script.js:98-103 | the selection becomes empty |
| Game.Clicked | script.js:78-96 | nothing while locked or dragging; else select, deselect the selected card, or swap, check for victory and clear the selection |
| Game.DragStarted | script.js:193-202 | nothing while locked; else take the lock, record the dragged card and the start point |
| Game.DragMoved | script.js:204-212 | nothing without a drag; else clear the selection |
| Game.DragEnded | script.js:214-245 | nothing without a drag; a tap frees the drag and clicks the origin; otherwise swap with a different target, check for victory, and free the drag |
| Game.GameReset | script.js:309-330 | a new deck of the mode, no selection, no drag, the lock free, not completed, the start point kept |
| Game.TapOnAxis | script.js:219-225 | a displacement along one axis counts as a tap exactly when it is shorter than 8 |
| Game.ThresholdIsDrag | script.js:225 | a displacement of exactly 8 is a drag |
| Game.VictoryCheckedOnce | script.js:275-285 | once completed, checking changes nothing; otherwise the flag becomes whether the grid meets the goal; checking twice is checking once |
| Game.GameResetIsFresh | script.js:309-330 | after a reset, nothing is completed, selected or dragged, the lock is free, and the grid is a full deck |
| Game.InitialIsValid | script.js:30-35 | the state at page load satisfies the invariant |
| Game.SwappedPreservesInv | script.js:106-109 | exchanging two cells keeps the grid a full deck and keeps the invariant |
| Game.ClickedPreservesInv | script.js:78-96 | a click keeps the invariant |
| Game.ClickedWhileBusy | script.js:79 | a click while the lock is held or a card is being dragged changes nothing |
| Game.ClickedSelects | script.js:81-86 | the first click selects the card and keeps the grid and the completed flag |
| Game.ClickedSwaps | script.js:93-95 | a click on a second card swaps the two, leaves no selection, sets the completed flag when the new grid is solved, and leaves every other slot alone |
| Game.TapTapSwaps | script.js:78-96 | tap on a, then on a different b: a swap, a victory check, then no selection |
| Game.TapTwiceRestores | script.js:78-103 | tapping the same card twice restores the state exactly |
| Game.CompletedDoesNotGuardClicks | script.js:78-96 | on a completed game a second click on a different card still changes the grid |
| Game.DragStartedWhileLocked | script.js:193-194 | a press while the lock is held changes nothing, including the dragged card and the start point |
| Game.DragStartedPreservesInv | script.js:193-202 | a press keeps the invariant, and when the lock was free it makes the pressed card the dragged one |
| Game.SecondPressDropped | script.js:193-245 | a second press during a drag does not change how that drag ends |
| Game.DragMovedClearsSelection | script.js:204-212 | a move during a drag drops the selection and nothing else; with no drag it does nothing |
| Game.ShortReleaseIsClick | script.js:225-231 | a release closer than 8 frees the drag and is then a click on the origin card |
| Game.LongReleaseIsDrop | script.js:233-244 | a release at 8 or more frees the drag and keeps the selection; it swaps with the target only when there is one and it differs from the origin |
| Game.DragEndedReleases | script.js:214-245 | every release ends with no dragged card and the lock free, and keeps the invariant |
| Game.ThresholdReleaseSwaps | script.js:225-241 | a release at exactly 8 over another card swaps the two and keeps the selection |
| Game.OneMoveTapTapCompletes | script.js:78-96 | from the `ONE_MOVE` layout, tapping slot 0 and then slot 1 completes the game with the solved layout |
| Game.Session.constructor | script.js:62-75 | the page-load state, with a fresh grid holding the deck of the mode |
| Game.Session.SwapCids | script.js:106-109 | the grid becomes the swap of the two slots, in the same cells |
| Game.Session.CheckVictory | script.js:275-285 | the state moves by `VictoryChecked`, calling the group walk only when not yet completed |
| Game.Session.ClearSelection | script.js:98-103 | the selection becomes empty and nothing else changes |
| Game.Session.OnCardClick | script.js:78-96 | the state moves by `Clicked`, and the invariant holds |
| Game.Session.StartDrag | script.js:193-202 | the state moves by `DragStarted`, and the invariant holds |
| Game.Session.MoveDrag | script.js:204-212 | the state moves by `DragMoved`, and the invariant holds |
| Game.Session.EndDrag | script.js:214-245 | the state moves by `DragEnded`, with the grid array kept, and the invariant holds |
| Game.Session.ResetGame | script.js:309-330 | the flags return to their initial values and a fresh grid holds a new deck of the mode; the start point is kept |
| Game.OneMoveSession | script.js:78-96 | a session on the `ONE_MOVE` layout, tapped at slots 0 and 1, is won with the solved layout |
| Game.TapSameCardSession | script.js:78-96 | a session on a shuffled deck, tapped twice at slot 0, keeps its grid, has no selection and is not won |

## Left out

- Rendering and the DOM are not modelled: element creation in `render`, `classList`, `style.transform`, `message` text and the relabelling of the check button. They do not affect the game state.
- Animations are not modelled (`getBoundingClientRect`, `animate`, the pixel deltas). Only the cid exchange inside `swapClickAnimation` and `swapDragAnimation` is kept.
- Listener bookkeeping is not modelled: pointer capture, the adding and removing of move/up listeners, and the separate `click` listener. The entry points are the handler methods themselves.
- Multitouch interleavings and event ordering are left out. The model is a sequential sequence of handler calls.
- `pointer-events: none` after a win (`showVictory`) is DOM behaviour. The model therefore does not claim that no swap happens after completion.
- `validate` and `showVictory` are presentation. `validate` shows the result of `isSolved` and does not set `gameCompleted`.
- `Math.random` is not modelled. Its draws are the `draws` parameter, so the model says nothing about the shuffle's distribution or whether every permutation can be reached.
- `Math.hypot` is replaced by the exact squared integer test. Coordinates are taken as integers, and floating-point rounding is not modelled.
- `document.elementFromPoint(...).closest(...)` is the `target` parameter of `EndDrag`.
- The hostname-based choice of debug mode is environment input. The mode is a parameter.
- Deck.Shuffle: its input is a sequence value. The claim that the caller's array is left unmodified therefore holds by construction and is not a separate postcondition.
