# Falling snow, modelled in Dafny

`src/app.py` is a terminal toy. Snow flakes fall down a 40 by 10 grid, one row
per turn of the main loop. A flake becomes *static* when it reaches the bottom
row or when the cell below it is blocked. A cell holding the placeholder
flake `"."` is not blocked: a flake falling into it removes the placeholder.
The user can drop a flake on the top row ('s'), switch automatic snow on and
off ('a'), remove every flake and blank its cell ('c'), move the cursor with the arrow keys, and
quit with Escape.

The model has four modules:

- `Dicts` (`dict.dfy`) models a Python dict as the sequence of its entries in
  insertion order. `Put` is `d[k] = v`: it overwrites in place when the key is
  present and appends otherwise. `ToMap` forgets the order.
- `Flakes` (`flakes.dfy`) holds `Flake` with `__eq__` (`Flake.Equals`),
  the placeholder and `can_fall_through` (`CanFallThrough`).
- `Tick` (`tick.dfy`) specifies `animate_snow` as a fold, `AdvanceUpTo`,
  of the loop body `StepFlake` over the moving flakes, with the lemmas about
  one tick.
- `App` (`app.dfy`) holds the main loop.
  - One turn is the pure function `Next`, made of `AfterTick` (the tick and
    the automatic flake) and `HandleKey` (the key dispatch). `MoveCursor` is
    the arrow-key branch.
  - Its state lives in the class `Snowfall`. The methods `AnimateSnow`,
    `Step`, `ApplyKey` and `Run` update it in place and are proved against
    those functions.
  - The predicate `WorldValid` is the invariant every turn keeps:
    - the cursor is on the grid;
    - the moving set is a dict;
    - every flake is on the grid;
    - every symbol comes from the palette.

## Model

| member | source | states |
|---|---|---|
| Flakes.CanFallThrough | src/app.py:42-47 | a flake can enter a cell exactly when the static set has no entry there or the entry's symbol is the placeholder "." |
| Flakes.EqualsIgnoresColor | src/app.py:20-22 | comparing two flakes ignores their colours: flakes with the same symbol are equal whatever their colours |
| Flakes.EqualsString | src/app.py:20-25 | a flake equals a string exactly when the string is its symbol, which is exactly when it equals a flake of that symbol in any colour; it never equals an operand that is neither a flake nor a string; `flake == "."` holds exactly for the placeholder symbol |
| Flakes.EqualsIsEquivalence | src/app.py:20-22 | between flakes, `==` is reflexive, symmetric and transitive |
| Dicts.Put | src/app.py:69 | `d[k] = v`: the keys become the old keys plus `k`; `(k, v)` is an entry; a present key keeps the length; a new key is appended at the end; distinct keys stay distinct |
| Dicts.PutKeepsOthers | src/app.py:122 | assigning to a present key leaves every key at its position; every entry with another key survives; the only entry added is `(k, v)` |
| Dicts.PutToMap | src/app.py:136 | seen as a mapping, dict assignment is map update `m[k := v]` |
| Tick.AdvanceUpTo | src/app.py:50-72 | after any prefix of the loop, `new_snow` has distinct keys and no more entries than flakes handled |
| Tick.AdvanceOrigins | src/app.py:55-69 | every cell of `new_snow` lies one row below the start cell of a flake already handled |
| Tick.AdvanceRows | src/app.py:55-69 | when every moving flake is on the grid, every flake still moving after the tick is on rows 1 to height-1 and within the grid's columns |
| Tick.AdvanceStaticChanges | src/app.py:58-64 | during the tick, a static cell that appears or changes holds the moving flake that started there; a static cell that disappears held a placeholder and now has a falling flake in it |
| Tick.AdvanceStaticFrame | src/app.py:58-64 | a cell where no handled flake starts and into which none falls keeps its static entry, or keeps having none |
| Tick.AdvanceStaticInGrid | src/app.py:58-60 | the static cells after the tick are static cells from before or start cells of moving flakes, so the static set stays on the grid |
| Tick.StaticFlakeStays | src/app.py:58-64 | a static flake that is not a placeholder, in a cell where no moving flake starts, is still there after the tick |
| Tick.AdvanceDrawnFrom | src/app.py:52-69 | a tick only moves flakes: if every flake, moving or static, has a symbol from a set, so does every flake after it |
| Tick.AdvanceFlakeOutcome | src/app.py:52-69 | each moving flake either lands or falls, decided by the static set when the loop reaches it. A landing flake is static in its own cell and nothing moves on from there; only a landed placeholder can be overwritten, by a later falling flake. A falling flake is one row down in `new_snow` |
| Tick.BelowUntouched | src/app.py:52-64 | when the loop reaches a flake, the cell below it looks as before the tick, unless a moving flake started there |
| Tick.BottomRowLands | src/app.py:58-60 | a flake on the bottom row lands |
| Tick.LandsOnStatic | src/app.py:58-60 | piling: a flake above a static flake that is not a placeholder lands, when no moving flake starts in that cell |
| Tick.FallsThroughPassable | src/app.py:61-69 | a flake above the bottom row with a free or placeholder cell below moves into it, and a placeholder there is deleted, when no moving flake starts in that cell |
| Tick.OverlapExample | src/app.py:52-69 | after a tick a cell can be in both the moving and the static set: a flake falls into the cell where a later flake on the bottom row lands |
| App.CursorOnGrid | src/app.py:146-155 | an arrow keeps the cursor on the grid and changes only its own coordinate; any other key leaves the cursor where it is |
| App.CursorWraps | src/app.py:146-153 | on the grid an arrow moves the cursor to the neighbouring cell, and from an edge to the opposite edge |
| App.CursorOppositeArrows | src/app.py:146-153 | opposite arrows undo each other |
| App.KeyEffects | src/app.py:124-155 | Escape, and only Escape, stops the loop; 'a', and only 'a', switches automatic snow; 'c' empties both sets; keys other than 'c' and 's' leave the moving set alone; keys other than 'c' leave the static set alone; the arrows move the cursor |
| App.SpawnKeepsValid | src/app.py:119-122 | a flake added on the top row keeps the moving set a dict on the grid, with palette symbols |
| App.AfterTickKeepsValid | src/app.py:117-122 | the tick followed by the automatic flake keeps the state valid |
| App.HandleKeyKeepsValid | src/app.py:124-155 | whatever the key, the state stays valid |
| App.NextKeepsValid | src/app.py:114-157 | every turn of the loop keeps the state valid |
| App.NoKeyTurn | src/app.py:115-125 | a turn without a key is the tick and, when automatic snow is on, one new flake on the top row. The static set is the tick's; the moving set is exactly the tick's result, with the automatic flake appended when automatic snow is on, and that flake is then the only one on the top row; the automatic-snow switch and the cursor are unchanged |
| App.PlaceTurn | src/app.py:130-137 | 's' assigns the placed flake to its top-row cell, and that single dict assignment is the only change to the moving set after the tick; it leaves the static set, the automatic-snow switch and the cursor unchanged |
| App.EmptyDict | src/app.py:75-79 | every cell of the dict is erased exactly once: the erased cells are exactly the dict's cells, with no repetition |
| App.Snowfall.constructor | src/app.py:90-111 | the loop starts with no snow, automatic snow off and the cursor at (0, 0), which is a valid state |
| App.Snowfall.AnimateSnow | src/app.py:50-72 | the in-place loop leaves the static set and returns the new moving set exactly as the specification `Advance` gives them |
| App.Snowfall.ApplyKey | src/app.py:124-155 | the key handling updates the fields and reports exit exactly as `HandleKey` specifies |
| App.Snowfall.Step | src/app.py:114-157 | one turn keeps the state valid, moves it as `Next` specifies, and exits exactly on Escape |
| App.Snowfall.Run | src/app.py:113-157 | the loop keeps the state valid and ends in the state reached by replaying the turns it ran. It stops right after the first Escape, or after all inputs when none is Escape |

## Left out

- Terminal output is not modelled: `draw_char`, `write_info`, the cursor moves, the screen clear, `Flake.__str__`, `Flake.__repr__` and the flake's terminal handle. Of `clear_char`, only which cells `empty_dict` blanks is kept, as `EmptyDict`'s result; the per-flake `clear_char` in `animate_snow` is left out.
- App.EmptyDict: returns the cells it erases, and the caller assigns the empty dict; the source returns a fresh empty dict and erases the cells on screen. It takes the cells as a set, so the order in which the source erases them (the dict's insertion order) is not captured.
- Input timing is not modelled: `inkey(timeout=0.1)` becomes one `Key` per turn, with `NoKey` for a timeout.
- The `Key` datatype stands for blessed's keystroke. Only the named keys the loop tests, and plain characters, are told apart.
- Randomness (`random.randint`, `random.choice`) becomes the `TickInput` parameters. `Drawn` states their ranges: a column in `[0, 40)` and a symbol from the palette.
- The colour palette's contents are not modelled. A flake's colour is any `Color`, and no property depends on it.
- App.Snowfall.Run: runs over a finite sequence of turns, where the source loops until Escape.
- `test()` is not part of this model.
- Moving and static flakes are not kept disjoint: the code lets a cell be in both sets at once (`Tick.OverlapExample`), and the model follows the code.
