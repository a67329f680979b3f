# Minesweeper engine in Dafny

This project models the `MineSweeper` class of a small pygame Minesweeper
(`src/game.py`, with the tile codes of `src/tile.py`) and proves what its
operations do to a game.

A game holds the following:

- a *logic grid*, where each cell holds a bomb or the number of bombs around it;
- a *display grid*, which is what the player sees;
- two bookkeeping lists, `flag_positions` and `hidden_positions`, which only `set` maintains;
- the chord staging state, `pressed_positions` and `reveal` (the fields `pressed` and `revealOnRelease`);
- `over` and `single_press`.

The model is value-based. `Board.Game` is an immutable datatype with grids as
`seq<seq<int>>` and the lists as `seq<Pos>`. Every operation takes a game and
returns the next one. The class invariant `Game.Valid` says:

- the logic grid is a correct layout of `numBombs` bombs, each number counting the bombs among its on-board neighbours;
- every display code is a tile code;
- the flag list holds exactly the cells showing FLAG, each once;
- the hidden list holds exactly the cells showing HIDDEN, each once;
- the staged cells are on the board.

Every operation keeps this invariant.

Modules, in dependency order:

- `Tile`: the tile codes 0–8 (counts), HIDDEN 9, PRESSED 10, FLAG 11, BOMB 12, BOMB_CROSSED 13 and BOMB_EXPLODED 14.
- `Seqs`: the list operations the game relies on. `RemoveFirst` is Python's `list.remove`. `Without(s, X)` drops the entries in `X` and keeps the order of the rest. `LastOrder(s)` keeps each distinct entry once, at its last place; it describes the hidden list after `set(…, HIDDEN)` has moved cells to its end.
- `Grid`: coordinates, `__is_valid`, and `__get_valid_neighbours` in its fixed scan order. The order is Top, TopRight, Right, BottomRight, Bottom, BottomLeft, Left, TopLeft.
- `Board`: the game, `get`, `set` and the invariant.
- `Setup`: the constructor, with its eight-direction neighbour count, and `restart`.
- `Flood`: the breadth-first `empty_patch`. The 8-connected zero region is defined as the least zero-closed set containing the start. Its border is the set of cells adjacent to that region.
- `Loss`: `lost_grid`. Its wrong-flag loop walks `flag_positions` while `set` removes the crossed entries from it. Python's list iterator therefore skips the entry after each crossed flag. The loop is modelled with an index into the live list, and `Crossed` gives a closed form of which entries it reaches.
- `Play`: `reveal_tile`, `check_single_press`, `auto_finish`, `pressed_neighbours` and `check_win`.
  - `auto_finish` iterates its list while shrinking it, so it flags exactly the entries at even indices.
  - `pressed_neighbours` is split into its filtering, counting and reveal loops.
- `Release`: `reveal_pressed_neighours`, the button release that commits or cancels a chord.

## Model

A row whose last column begins "proof step of `X`" is a lemma, or a loop body split out as a method, that proves one step of operation `X`. Every other row states what an operation does, or a property of the game it keeps.

| member | source | states |
|---|---|---|
| Grid.ValidNeighbours | src/game.py:74-89 | the result holds exactly the on-board cells adjacent to the given cell, never the cell itself, in the fixed Top…TopLeft order, without repeats, at most eight |
| Grid.InBoundsIndexes | src/game.py:71-72 | a coordinate passes `__is_valid` exactly when it names an existing cell of the grid, so a negative index, which Python would read from the end, is refused |
| Grid.Put | src/game.py:107 | writing one display cell changes that cell to the value and no other cell |
| Board.GetShows | src/game.py:94-95 | `get(i, j)` reads row `i`, column `j` of the display; under the invariant the value is a tile code, FLAG exactly for the cells in the flag list and HIDDEN exactly for those in the hidden list |
| Board.Game.Set | src/game.py:97-107 | afterwards the cell shows `val` and no other cell changes; the flag and hidden lists still hold exactly the FLAG and HIDDEN cells once each, including the FLAG→FLAG and HIDDEN→HIDDEN cases; the lists change by removing the cell's first occurrence or appending it |
| Board.SetUnlists | src/game.py:97-107 | writing a code other than FLAG or HIDDEN drops the cell from both lists, every other entry keeping its place |
| Board.SetHides | src/game.py:97-107 | writing HIDDEN drops the cell from the flag list and moves it to the end of the hidden list, every other entry keeping its place |
| Board.RebookTracks | src/game.py:98-105 | proof step of `Board.Game.Set`: the append-then-remove bookkeeping for one list keeps that list tracking its code, also when the old and new codes are both that code |
| Board.ListedIffShown | src/game.py:97-107 | under the invariant a cell is in the flag list iff it shows FLAG, and in the hidden list iff it shows HIDDEN |
| Board.ZeroHasNoBombNeighbour | src/game.py:30-60 | a cell whose count is 0 has no bomb among its neighbours |
| Setup.CountAroundIsBombCount | src/game.py:35-60 | the eight edge-guarded tests count exactly the bombs among the on-board neighbours, so every number is at most 8 |
| Setup.NeighbourBombsListed | src/game.py:74-89 | the bombs among `__get_valid_neighbours` are the bombs among the on-board adjacent cells |
| Setup.AllPositions | src/game.py:64-65 | the initial hidden list holds every cell once, in row-major order |
| Setup.PlaceBombs | src/game.py:27-28 | on an all-EMPTY grid, exactly the bomb cells become BOMB and the rest stay EMPTY, whatever order the set is walked in |
| Setup.NumberRow | src/game.py:31-60 | one row of the numbering loop gives each non-bomb cell of the row its bomb count and leaves bombs and other rows alone |
| Setup.Create | src/game.py:9-69 | exactly the given `num_bombs` in-bounds cells hold BOMB, every other cell holds the count of bombs among its on-board neighbours (0..8), every cell shows HIDDEN, no flags, each cell hidden once in row order, not over, reveal set, no staged or held cell, and the invariant holds |
| Setup.Restart | src/game.py:91-92 | a fresh game of the same size and bomb count: the given bombs, correct counts elsewhere, everything hidden, each cell once in the hidden list in row-major order, nothing flagged or staged, not over |
| Flood.TouchedSameLogic | src/game.py:123-143 | the zero region and its border depend on the logic grid alone, not on what is displayed |
| Flood.RegionAbsorbs | src/game.py:123-140 | a zero cell reached by the flood from `n` floods nothing that the flood from `n` does not reach itself |
| Flood.TouchedNoBomb | src/game.py:123-143 | a flood from a zero cell never reaches a bomb |
| Flood.Visit | src/game.py:133-140 | proof step of `Flood.Explore`: a new zero neighbour joins `visited`, any other new neighbour joins `other`, and both stay duplicate-free, inside the region and its border |
| Flood.Expand | src/game.py:131-140 | proof step of `Flood.Explore`: after a dequeued cell is expanded, each of its on-board neighbours is in `visited` or `other`, and `visited` only grows at its end |
| Flood.ExpandDone | src/game.py:131-140 | proof step of `Flood.Explore`: once every neighbour of the dequeued cell has been visited, each on-board neighbour is in `visited` or `other`, and the old `visited` is a prefix of the new one |
| Flood.Explore | src/game.py:126-140 | the search terminates with `visited` exactly the zero region of the start and `other` exactly its non-zero border, both duplicate-free and disjoint |
| Flood.ShowLogic | src/game.py:142-143 | each listed non-bomb cell shows its logic value, every other cell keeps its display, and each bookkeeping list loses exactly the listed cells, its other entries keeping their order |
| Flood.EmptyPatch | src/game.py:123-143 | from a zero cell, every cell of its zero region and of the region's border shows its logic value, each is set once, no bomb cell changes, and every other cell keeps its display; the flag and hidden lists lose exactly those cells, their other entries keeping their order |
| Loss.ExaminedIffEvenRun | src/game.py:216-218 | the shrinking-list iterator reaches an entry iff an even number of wrong flags directly precede it |
| Loss.FirstWrongFlagCrossed | src/game.py:216-218 | the first wrong flag in list order is always crossed |
| Loss.SkipAfterCrossed | src/game.py:216-218 | the entry directly after a crossed flag is skipped and stays uncrossed |
| Loss.AllWrongFlagsCrossedIff | src/game.py:216-218 | every wrong flag gets crossed iff no two wrong flags are adjacent in the list |
| Loss.ShowBombs | src/game.py:206-210 | every bomb not showing FLAG shows BOMB, in any visiting order; all else keeps its display |
| Loss.CrossAt | src/game.py:216-218 | proof step of `Loss.CrossWrongFlags`: crossing the wrong flag under the iterator removes it from the live list and moves the iterator's next read two entries on |
| Loss.PassBomb | src/game.py:216-217 | proof step of `Loss.CrossWrongFlags`: a flagged bomb under the iterator is left as it is and the iterator moves one entry on |
| Loss.DropUnderIterator | src/game.py:103 | proof step of `Loss.CrossWrongFlags`: removing the entry under the iterator from a duplicate-free list leaves the entry two further on under the advanced iterator |
| Loss.CrossWrongFlags | src/game.py:215-218 | an entry of the flag list ends BOMB_CROSSED exactly when the shrinking-list loop reaches it as a wrong flag, otherwise stays FLAG; no other cell changes |
| Loss.FlagsLeft | src/game.py:212-213 | proof step of `Loss.LostGrid`: once the detonated cell is set, the flag list holds every other flagged cell once |
| Loss.LostGrid | src/game.py:202-220 | the game is over; the detonated cell shows BOMB_EXPLODED; other bombs show FLAG if flagged, else BOMB; among the remaining flags, a wrong flag is crossed exactly as the shrinking-list loop reaches it, so every flagged safe cell ends FLAG or BOMB_CROSSED; other non-bomb cells keep their display |
| Loss.FlagsStayMarked | src/game.py:212-218 | since the wrong-flag loop walks every flag but the detonated cell, each flagged safe cell ends FLAG or BOMB_CROSSED |
| Loss.CrossWrongFlagsFixed | src/game.py:215-218 | walking a copy of the flag list crosses every wrong flag and keeps every flagged bomb |
| Play.RevealTile | src/game.py:110-113 | a non-bomb cell shows its logic value and nothing else changes; the flag list loses the cell if it showed FLAG and the hidden list loses it if it showed HIDDEN, each list otherwise unchanged and in order. A bomb ends the game with the cell BOMB_EXPLODED, the other bombs shown FLAG if flagged and BOMB otherwise, non-flagged safe cells untouched, and each wrong flag of the remaining flag list crossed exactly when the shrinking-list loop reaches it (so FLAG or BOMB_CROSSED) |
| Play.CheckSinglePress | src/game.py:115-121 | with no held cell nothing changes; a held safe cell shows its value, and a held zero cell also uncovers exactly its zero region and border, nothing else changing; each list then loses exactly the uncovered cells, its other entries in their order; a held bomb loses the game with the same outcome as `reveal_tile` on a bomb; the hold is always released |
| Play.SinglePressLists | src/game.py:115-121 | proof step of `Play.CheckSinglePress`: the reveal and the flood together drop exactly the swept cells from each list |
| Play.FlagKeepsShape | src/game.py:230-231 | proof step of `Play.AutoFinish`: removing the entry under the iterator keeps the live hidden list shaped as survivors `H[1], H[3], …` followed by the untouched rest |
| Play.FlagDisplay | src/game.py:231 | proof step of `Play.AutoFinish`: flagging `H[2k]` extends the flagged even-indexed entries by one and leaves the odd ones HIDDEN |
| Play.FinishDone | src/game.py:228-231 | proof step of `Play.AutoFinish`: when the live hidden list is used up, `(n + 1) / 2` turns have run for a hidden list of length `n`, giving the outcome `Play.AutoFinish` states |
| Play.FlagAt | src/game.py:230-231 | proof step of `Play.AutoFinish`: one turn of the auto-flag loop flags the entry under the iterator, appends it to the flag list and keeps the loop's survivors-then-rest state |
| Play.AutoFinish | src/game.py:228-231 | if some hidden cell is not a bomb, or none is hidden, nothing changes; otherwise exactly the even-indexed entries of the hidden list become FLAG and are appended to the flag list in hidden-list order, the odd-indexed ones stay HIDDEN and form the new hidden list, and nothing else changes |
| Play.FlagOne | src/game.py:230-231 | proof step of `Play.AutoFinishFixed`: flagging the head of the live hidden list drops it from that list and appends it to the flag list |
| Play.FlagHead | src/game.py:98-99 | proof step of `Play.AutoFinishFixed`: once the head of the live hidden list shows FLAG and is appended to the flag list, the loop's state holds one entry further on |
| Play.AutoFinishFixed | src/game.py:228-231 | when all hidden cells are bombs, walking a copy of the hidden list flags every hidden cell, appends the whole hidden list to the flag list in order, and empties the hidden list; otherwise nothing changes |
| Play.Keep | src/game.py:149-154 | proof step of `Play.KeptNeighbours`: the neighbours surviving the `to_delete` pass are exactly those showing one of the kept codes |
| Play.KeepSorted | src/game.py:149-154 | proof step of `Play.KeptNeighbours`: the surviving neighbours keep their original scan order |
| Play.KeptNeighbours | src/game.py:148-159 | the kept neighbours are exactly the adjacent HIDDEN or FLAG cells in scan order; the staged ones are exactly the adjacent HIDDEN cells |
| Play.KeptShowing | src/game.py:149-154 | proof step of `Play.KeptNeighbours`: the filtered list holds exactly the on-board adjacent cells showing HIDDEN or FLAG |
| Play.KeptHidden | src/game.py:157-159 | proof step of `Play.KeptNeighbours`: the staged cells are exactly the adjacent HIDDEN cells, in scan order |
| Play.HiddenAroundIff | src/game.py:157-159 | proof step of `Play.KeptNeighbours`: a cell is a hidden neighbour iff it is on the board, adjacent and shows HIDDEN |
| Play.SweptAdd | src/game.py:177-187 | proof step of `Play.ChordReveal`: a cell is swept by one more revealed entry `n` iff it was swept before, is `n`, or is reached by the flood from `n` when `n` is zero |
| Play.SweptNoBomb | src/game.py:181-187 | proof step of `Play.ChordReveal`: when no revealed entry is a bomb, no swept cell is a bomb |
| Play.HiddenPrefixStep | src/game.py:177-184 | proof step of `Play.ChordReveal`: the hidden entries among the first `i + 1` are those among the first `i`, plus entry `i` when it shows HIDDEN |
| Play.BombsKept | src/game.py:181-187 | proof step of `Play.ChordReveal`: until the first hidden bomb, the reveal loop has changed no bomb cell |
| Play.SkipFlag | src/game.py:178-179 | proof step of `Play.ChordReveal`: an entry showing FLAG is passed over without changing the loop's state |
| Play.SweptAgain | src/game.py:185-187 | proof step of `Play.ChordReveal`: flooding again from a zero cell already swept uncovers nothing new |
| Play.ChordNext | src/game.py:177-187 | proof step of `Play.ChordReveal`: a step that reveals a safe entry exactly as the sweep describes completes its turn of the loop |
| Play.SafeEntry | src/game.py:181-184 | proof step of `Play.ChordReveal`: a safe entry extends the run of non-bomb hidden entries by one |
| Play.CountShown | src/game.py:162-165 | proof step of `Play.CountFlags`: the counting loop returns the number of listed entries showing FLAG |
| Play.FlaggedAmong | src/game.py:163-165 | proof step of `Play.CountFlags`: the flagged entries of the kept list are the flagged cells around the pressed cell |
| Play.CountFlags | src/game.py:161-165 | `flag_count` is the number of flagged cells around the pressed cell |
| Play.RevealSafe | src/game.py:185-187 | proof step of `Play.ChordReveal`: revealing a safe entry, and flooding from it when it is zero, keeps the reveal loop's state |
| Play.Uncovered | src/game.py:185 | proof step of `Play.ChordReveal`: a safe non-zero entry now showing its value completes its turn of the loop |
| Play.Flooded | src/game.py:186-187 | proof step of `Play.ChordReveal`: a zero entry whose region and border now show their values completes its turn of the loop |
| Play.FirstHiddenBomb | src/game.py:181-184 | proof step of `Play.ChordReveal`: the first hidden bomb met in scan order ends the game through `lost_grid` with the chord-loss outcome: the swept cells of the earlier hidden entries show their values, the other bombs show FLAG or BOMB, flagged safe cells FLAG or BOMB_CROSSED, and every other cell as before |
| Play.LossOutcome | src/game.py:181-184 | proof step of `Play.ChordReveal`: `lost_grid` after the earlier entries were swept leaves those cells showing their values and gives the chord-loss display everywhere else |
| Play.EarlierIsPrefix | src/game.py:177-184 | proof step of `Play.ChordReveal`: with the entries in scan order, the hidden ones before entry `i` in scan order are those among the first `i` entries |
| Play.ChordFinished | src/game.py:178-187 | proof step of `Play.ChordReveal`: a loop that meets no hidden bomb leaves exactly the hidden entries and what their floods reach showing their values, every other cell as before, and no first bomb exists |
| Play.ChordReveal | src/game.py:177-187 | flagged neighbours are passed over; with no hidden bomb, exactly the hidden neighbours and the cells flooded from the zero ones show their values and every other cell is unchanged; otherwise the first hidden bomb in scan order loses the game: earlier hidden neighbours and their floods show their values, other bombs FLAG or BOMB, flagged safe cells FLAG or BOMB_CROSSED, every other cell unchanged |
| Play.RestagedOutcome | src/game.py:159 | proof step of `Play.CommitChord`: writing the staging fields does not disturb what the chord showed |
| Play.CommitChord | src/game.py:177-187 | the matching branch: the display and `over` end exactly as the reveal loop leaves them (the cleared or lost outcome of `Play.ChordReveal`), and the staged list grows by exactly the given cells |
| Play.PressedNeighbours | src/game.py:146-187 | the adjacent HIDDEN cells are appended to the staged list in scan order; a flag count of zero or one different from the cell's number changes no display and clears `reveal`; an exact match sweeps the hidden neighbours and their floods and changes nothing else, or loses on the first hidden bomb in scan order with the chord-loss display |
| Play.CheckWin | src/game.py:233-238 | true iff no cell shows HIDDEN, with PRESSED and FLAG not counting; under the invariant, iff the hidden list is empty |
| Release.HitBombStep | src/game.py:191-193 | proof step of `Release.RevealStaged`: a bomb among the first `i + 1` staged cells is one among the first `i`, or the `i`-th |
| Release.LastStagedBombUnique | src/game.py:191-213 | a staged bomb has been met iff there is a staged bomb with no staged bomb after it, and that last one is unique: it is the only staged bomb `lost_grid` leaves BOMB_EXPLODED |
| Release.ReleaseOne | src/game.py:192-193 | proof step of `Release.RevealStaged`: revealing the next staged cell releases it, and `reveal_tile` records whether it was a bomb |
| Release.ReleasedStep | src/game.py:192-193 | proof step of `Release.RevealStaged`: revealing one more staged cell keeps the earlier ones released and releases it |
| Release.UnstagedStep | src/game.py:192-193 | proof step of `Release.RevealStaged`: revealing one more staged cell keeps every cell outside the staged ones unchanged, except that after a bomb the other bombs show FLAG or BOMB and flagged safe cells FLAG or BOMB_CROSSED |
| Release.BombFacesStep | src/game.py:207-213 | proof step of `Release.RevealStaged`: after one more staged cell, the last staged bomb so far shows BOMB_EXPLODED and every earlier staged bomb BOMB, since each `lost_grid` turns every unflagged bomb back to BOMB before exploding its own cell |
| Release.UnlistedStep | src/game.py:192-193 | proof step of `Release.RevealStaged`: revealing one more safe staged cell drops exactly that cell from each list |
| Release.ReleaseNext | src/game.py:191-195 | proof step of `Release.RevealStaged`: a reveal as `reveal_tile` describes it completes one turn of the release loop |
| Release.ReleaseNone | src/game.py:193 | proof step of `Release.RevealStaged`: one turn of the as-written loop, with `over` overwritten by `reveal_tile`'s `None`, keeps the loop state and leaves `over` false |
| Release.ReleaseCounted | src/game.py:191-195 | proof step of `Release.RevealStagedFixed`: one turn of the corrected loop keeps `over` true exactly when the game was over or a staged bomb has been met |
| Release.OverKeepsRelease | src/game.py:193 | proof step of `Release.RevealStaged`: overwriting `over` changes nothing the release loop tracks |
| Release.HideOne | src/game.py:197 | proof step of `Release.HideAll`: one staged cell shows HIDDEN again |
| Release.HideLists | src/game.py:197 | proof step of `Release.HideAll`: hiding one more staged cell drops it from the flag list and moves it to the end of the hidden list |
| Release.HideAll | src/game.py:190-197 | with `reveal` clear, every staged cell shows HIDDEN and every other cell keeps its display; both lists lose the staged cells, and the hidden list then ends with the staged cells, each once, ordered by their last place in the staged list |
| Release.ReleaseDone | src/game.py:190-195 | proof step of `Release.RevealStaged`: when the loop ends every staged cell is released, the last staged bomb in staged order shows BOMB_EXPLODED and every earlier staged bomb BOMB; without a staged bomb no other cell changes and each list has lost exactly the staged cells; after one the other bombs show FLAG or BOMB and flagged safe cells FLAG or BOMB_CROSSED |
| Release.RevealStaged | src/game.py:190-195 | the as-written reveal loop releases every staged cell with the outcome of `Release.ReleaseDone`, and leaves `over` false |
| Release.RevealStagedFixed | src/game.py:190-195 | the corrected reveal loop gives the same display and lists, with `over` true iff it was true before or a staged cell was a bomb |
| Release.RevealPressedNeighbours | src/game.py:189-199 | with `reveal` clear, the staged cells show HIDDEN again and the lists change as in `Release.HideAll`. With `reveal` set, each staged non-bomb shows its logic value; the staged bomb met last shows BOMB_EXPLODED and every earlier staged bomb BOMB; without a staged bomb no other cell changes and each list loses exactly the staged cells, in order; after one the other bombs show FLAG or BOMB and flagged safe cells FLAG or BOMB_CROSSED; `over` ends false whenever a cell was staged. Always ends with no staged cells and `reveal` set |
| Release.RevealPressedNeighboursFixed | src/game.py:189-199 | the same release and the same display and list outcome, with `over` true afterwards iff it was true before or a staged cell was a bomb |
| Release.CancelledChord | src/game.py:146-199 | a chord on a flag-count mismatch, then the release, leaves every display cell as it was, apart from earlier staged cells shown HIDDEN; both lists lose the staged cells, old and new, and the hidden list ends with them in the order of their last staging; nothing ends up staged and `reveal` is set |
| Release.StagedBombIgnored | src/game.py:192-195 | with a staged bomb the as-written release shows the bomb uncovered yet leaves the game running, while the corrected one ends it |

## Left out

- `update_display` and its call at the end of `lost_grid` (`src/game.py:220-226`) are pygame drawing. They change no state and are not modelled.
- `random.sample` (`src/game.py:25-26`) is randomness. The bomb set is a parameter of `Setup.Create` and `Setup.Restart`, required to be in-bounds cells, `num_bombs` of them, with `0 <= num_bombs <= width * height`.
- `display_info` is driver data and is not modelled. `src/main.py` (event loop, sizing, images, sleeping) is not part of this model either, and neither is the `tile_images` name list of `src/tile.py`.
- Python's `None` for `single_press` is `Option.None`. The `None` that `reveal_tile` returns into `over` is modelled as `false`.
- The code never checks coordinates, so every coordinate argument is required to be on the board. `list.remove` raises when its value is missing; under the invariant that cannot happen, and `Board.Game.Set` requires it.
- `Flood.EmptyPatch` requires the start cell's logic value to be 0. Every caller only floods from a cell that shows EMPTY.
- The bookkeeping lists are `seq<Pos>`. The walk over Python's set `bomb_positions` uses an unspecified choice order, and every contract holds for any order.
- `Play.PressedNeighbours` writes the staged list after the flag count rather than before it. Nothing in between reads that list, so the result is the same.
- Play.PressedNeighbours: on a loss it says only that a flagged safe cell ends FLAG or BOMB_CROSSED, not which ones `lost_grid` crosses. The list it walks is the flag list after the sweeps, which the contract does not give. After a chord the flag and hidden lists are given only as sets, through `Game.Valid`, and not in order: each list loses the swept cells, but the contract does not say so.
- Play.ChordReveal: the same gaps as Play.PressedNeighbours: which flags are crossed after a loss, and the order of the lists.
- Play.CommitChord: the same gaps as Play.PressedNeighbours: which flags are crossed after a loss, and the order of the lists.
- Loss.LostGrid: gives the flag and hidden lists afterwards only as sets, through `Game.Valid`, not in order. The bomb loop walks a Python set in an unspecified order, but every removal keeps the order of the other entries, so the final order could be stated as well.
- Play.RevealTile: on a bomb, the same gap as Loss.LostGrid for the order of the lists.
- Play.CheckSinglePress: on a held bomb, the same gap as Loss.LostGrid for the order of the lists.
- Release.RevealPressedNeighbours: after a staged bomb goes off, it says only that a flagged safe cell outside the staged ones ends FLAG or BOMB_CROSSED, not which ones are crossed. The flag list walked by that `lost_grid` depends on the earlier reveals. After a staged bomb the lists are given only as sets, through `Game.Valid`, not in order.
- Release.RevealPressedNeighboursFixed: the same gaps as Release.RevealPressedNeighbours after a staged bomb: the crossed flags and the order of the lists.

## Findings

| source | as written | input that shows it | evidently intended | confidence | as-written member | corrected member |
|---|---|---|---|---|---|---|
| src/game.py:193 | `self.over = self.reveal_tile(i, j)` stores `None`, since `reveal_tile` returns nothing; the `if self.over` after it is dead | a release with `reveal` set whose staged cells include a bomb: the bomb is uncovered but `over` ends false | `over` becomes true once a staged bomb goes off and stays true | high; not executed | Release.RevealPressedNeighbours | Release.RevealPressedNeighboursFixed |
| src/game.py:216-218 | the wrong-flag loop walks `flag_positions` while `set(…, BOMB_CROSSED)` removes entries from it, so the entry after each crossed flag is skipped | two wrong flags next to each other in the flag list: the second stays FLAG (`Loss.SkipAfterCrossed`, `Loss.AllWrongFlagsCrossedIff`) | every wrong flag is crossed | high; not executed | Loss.CrossWrongFlags | Loss.CrossWrongFlagsFixed |
| src/game.py:230-231 | `auto_finish` walks `hidden_positions` while `set(…, FLAG)` removes entries from it, so only every other entry is flagged | two hidden cells left, both bombs: the first is flagged, the second stays HIDDEN | every remaining hidden bomb is flagged | medium (the next frame's call flags more); not executed | Play.AutoFinish | Play.AutoFinishFixed |
