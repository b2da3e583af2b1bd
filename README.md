# One-dimensional cellular automaton engine, modelled in Dafny

This project models the engine of `cellularexplorations`, a one-dimensional cellular automaton. The engine has:

- a row of cells, each holding an integer state;
- a Wolfram code assigned to every cell (`rule_grid`);
- a dictionary from codes to lookup tables (`rule_dict`);
- a synchronous `step`. For every evolving cell it encodes the window of `2r+1` cells around that cell as a base-`num_states` number, leftmost neighbour as the least-significant digit. It then looks that number up in the cell's table.

Modules:

- `Power` (`power.dfy`): Python's `**` on non-negative integers.
- `Lists` (`lists.dfy`): Python list subscripts, where a negative subscript counts from the end. It also gives the engine's exceptions as values: `IndexError`, `KeyError`, a failed state assertion and a modulo by zero.
- `RuleTable` (`rule_table.dfy`): the module-level table builder `lookup_table_from_wolfram_code`.
- `Encoding` (`encoding.dfy`): the neighbourhood code as the sum of weighted digits, as the source computes it. It also holds the decoding into digits and the lemmas relating the two.
- `Automaton` (`automaton.dfy`): the class `CellularAutomaton1D`. The class has:
  - its derived constants;
  - the fields `grid`, `ruleGrid` and `ruleDict`, which the methods reassign;
  - the object invariant `Valid()`;
  - the in-place mutators;
  - the neighbourhood functions;
  - the step, specified by the function `NextGrid` and implemented by a loop that fills a fresh sequence.

Behaviour of the code that the model keeps as written:

- `__init__` sets `is_periodic` to `False` whatever `periodic` says. The grid always has `width + radius` cells. The periodic read path stays in the model, controlled by the field `isPeriodic`.
- Without wrapping, a neighbour left of cell 0 is read with a negative subscript. It lands on one of the `radius` trailing extension cells.
- The code check in `__init__` is inclusive of `maximum_wolfram_code`. That value is the number of distinct rules, so the check admits one code more than there are rules.
- The state check in `set_state_local` is `0 <= state <= num_states`, so `state == num_states` is admitted. `InclusiveStateBoundBreaksStep` shows the consequence. Put such a state in the rightmost cell of an evolving cell's window, and that window's code falls past the end of every table. The next step then fails with `IndexError`.
- `lookup_table_from_wolfram_code` is a placeholder that returns all zeros for every code. So every successful step leaves the whole grid at 0, and the all-zero grid is a fixed point.
- `update_rule_global` and `update_rule_local` do not check the code. The model does not check it either.
- A failing step never changes the grid, because `self.grid` is reassigned only after the loop.

Where the model departs from the code as written:

- `update_rule_local` (`cellularexplorations/cellular_automaton.py:66`) cannot run as written. It builds a set, not a dict, and calls a misspelled function, so it always raises `NameError`. The model follows the evident intent: the code's table is put in the dictionary, then line 67 assigns the code to the cell. The dictionary update comes first, so an out-of-range subscript still leaves the new table in the dictionary.

Where the code's own comments promise more than it does, the model follows the code:

- The docstring of the table builder (`cellularexplorations/cellular_automaton.py:10`) describes a table derived from the Wolfram code. The body (line 13) returns all zeros.
- The constructor's docstring (`cellularexplorations/cellular_automaton.py:22`) says `periodic` selects periodic boundaries. Line 33 ignores it.
- The comment at `cellularexplorations/cellular_automaton.py:31` calls `maximum_wolfram_code` the number of distinct rules. The check at line 41 still admits that value as a code.

## Model

| member | source | states |
|---|---|---|
| `Lists.ListIndex` | cellularexplorations/cellular_automaton.py:82 | a Python subscript `i` selects a position exactly when `-len <= i < len`, and that position is congruent to `i` modulo the length |
| `Lists.ListGet` | cellularexplorations/cellular_automaton.py:95 | a list read succeeds exactly for subscripts in `[-len, len)` and otherwise raises `IndexError` |
| `RuleTable.LookupTableFromWolframCode` | cellularexplorations/cellular_automaton.py:8-13 | the table has exactly `num_nbhd_states` entries, all 0, for any code |
| `RuleTable.LookupTableIgnoresCode` | cellularexplorations/cellular_automaton.py:8-13 | any two codes give the same table |
| `Power.Pow` | cellularexplorations/cellular_automaton.py:30-32 | `**` on non-negative integers; a positive base has a positive power, so a table of `num_states ** nbhd_size` entries is never empty when `num_states >= 1` |
| `Encoding.Digits` | cellularexplorations/cellular_automaton.py:84 | the weighted digits `slice[i] * num_states ** i`, one per cell of the window; what their sum means is stated by `Encoding.EncodeCons`, `Encoding.EncodeRange` and the round-trip lemmas |
| `Encoding.Sum` | cellularexplorations/cellular_automaton.py:85 | Python's built-in `sum`; what it yields for the weighted digits is stated by `Encoding.EncodeCons` |
| `Encoding.Encode` | cellularexplorations/cellular_automaton.py:84-85 | the neighbourhood code as the sum of weighted digits; its Horner form, range and inverse are `Encoding.EncodeCons`, `Encoding.EncodeRange`, `Encoding.DecodeEncode` and `Encoding.EncodeDecode` |
| `Encoding.Decode` | cellularexplorations/cellular_automaton.py:83-85 | the base-`num_states` digits of a code, least significant first: `len` of them, each in `[0, num_states)` |
| `Encoding.EncodeCons` | cellularexplorations/cellular_automaton.py:84-85 | the sum of `slice[i] * num_states ** i` equals the leftmost cell plus `num_states` times the code of the rest of the window |
| `Encoding.EncodeRange` | cellularexplorations/cellular_automaton.py:84-85 | a window of cells in `[0, num_states)` encodes to a code in `[0, num_states ** len)` |
| `Encoding.DecodeEncode` | cellularexplorations/cellular_automaton.py:83-85 | decoding a window's code gives back the window, left to right |
| `Encoding.EncodeDecode` | cellularexplorations/cellular_automaton.py:83-85 | every code below `num_states ** len` is the code of the window its digits spell |
| `Encoding.EncodeOverflowsFromRightmost` | cellularexplorations/cellular_automaton.py:84-85 | a window with no negative cell whose rightmost cell is at least `num_states` encodes to at least `num_states ** len` |
| `Automaton.GridLength` | cellularexplorations/cellular_automaton.py:36-39 | the grid has between `width` and `width + radius` cells, exactly `width` when periodic, so every evolving cell has a place in it |
| `Automaton.NeighborPositions` | cellularexplorations/cellular_automaton.py:79-82 | the `2r+1` subscripts read for a cell: wrapped into `[0, width)` when periodic, `index - r + i` otherwise |
| `Automaton.PeriodicNeighbors` | cellularexplorations/cellular_automaton.py:80 | with wrapping, neighbour `i` of `index` is cell `(index - r + i) mod width` |
| `Automaton.PeriodicWrapsAround` | cellularexplorations/cellular_automaton.py:80 | with wrapping and radius 1, cell 0's left neighbour is the last cell and the last cell's right neighbour is cell 0 |
| `Automaton.ReadCells` | cellularexplorations/cellular_automaton.py:80-82 | reading a list of subscripts succeeds exactly when every subscript is in the list, and yields the selected cells in order |
| `Automaton.NonPeriodicReadsInBounds` | cellularexplorations/cellular_automaton.py:82 | without wrapping, every read for an evolving cell is in bounds. An offset left of cell 0 lands on one of the `r` trailing extension cells; any other offset is read directly |
| `Automaton.CellularAutomaton1D.constructor` | cellularexplorations/cellular_automaton.py:20-46 | `nbhd_size = 2r+1`, `num_nbhd_states = num_states ** nbhd_size`, maximum code `num_states ** num_nbhd_states`, no wrapping, `width + r` zero cells, `width` copies of the code, the code as the only key; any code in `[0, maximum]` is accepted |
| `Automaton.CellularAutomaton1D.UpdateRuleGlobal` | cellularexplorations/cellular_automaton.py:55-60 | afterwards the code is the only key of the dictionary, every cell follows it, and the invariant holds |
| `Automaton.CellularAutomaton1D.UpdateRuleLocal` | cellularexplorations/cellular_automaton.py:62-67 | the code's table is upserted into the dictionary; only the selected cell's code changes; an out-of-range subscript fails after the dictionary update |
| `Automaton.CellularAutomaton1D.SetStateLocal` | cellularexplorations/cellular_automaton.py:69-71 | a state outside `[0, num_states]` fails with nothing changed; otherwise only the selected cell changes, extension cells included; the invariant holds |
| `Automaton.CellularAutomaton1D.NeighborhoodSlice` | cellularexplorations/cellular_automaton.py:78-82 | for every evolving cell the window has `2r+1` cells. Without wrapping, neighbour `i` is `grid[index - r + i]`, counted from the end when negative; with wrapping it is `grid[(index - r + i) mod width]` |
| `Automaton.CellularAutomaton1D.GetNeighborhoodState` | cellularexplorations/cellular_automaton.py:74-85 | the code of an evolving cell's neighbourhood always exists and is the encoding of its window |
| `Automaton.CellularAutomaton1D.NewCellState` | cellularexplorations/cellular_automaton.py:95 | the new state of one cell, evaluated in Python's order: a code with no table fails with `KeyError` before any cell is read; under the invariant the only possible failure is `IndexError` |
| `Automaton.CellularAutomaton1D.NewCells` | cellularexplorations/cellular_automaton.py:94-95 | computing cells `0 .. k-1` in order succeeds exactly when each cell succeeds, gives each cell's new state, and otherwise reports the error of a failing cell |
| `Automaton.CellularAutomaton1D.NewCellsFailAt` | cellularexplorations/cellular_automaton.py:94-95 | the first cell that fails decides the error of the whole step |
| `Automaton.CellularAutomaton1D.NextGridIs` | cellularexplorations/cellular_automaton.py:93-96 | a list of the grid's length that holds every evolving cell's new state, and 0 everywhere else, is the next grid |
| `Automaton.CellularAutomaton1D.NextGrid` | cellularexplorations/cellular_automaton.py:93-96 | the next grid has the old length; each evolving cell is its table's entry at its neighbourhood code in the old grid (synchronous update); every other cell is 0 |
| `Automaton.CellularAutomaton1D.ComputeNextGrid` | cellularexplorations/cellular_automaton.py:93-95 | the loop that fills a fresh zero list cell by cell computes exactly `NextGrid` |
| `Automaton.CellularAutomaton1D.Step` | cellularexplorations/cellular_automaton.py:89-96 | on success the grid becomes `NextGrid`; on failure nothing changes; the rule fields are untouched and the invariant holds |
| `Automaton.CellularAutomaton1D.StepResultIsQuiescent` | cellularexplorations/cellular_automaton.py:13 | because every table is all zeros, a successful step leaves every cell at 0 |
| `Automaton.CellularAutomaton1D.NeighborhoodStateInTable` | cellularexplorations/cellular_automaton.py:84-85 | when every cell is in `[0, num_states)`, every neighbourhood code is in `[0, num_nbhd_states)`, a valid table subscript |
| `Automaton.CellularAutomaton1D.NeighborhoodStateDigits` | cellularexplorations/cellular_automaton.py:83-85 | the base-`num_states` digits of a neighbourhood code, least significant first, are its window read left to right |
| `Automaton.CellularAutomaton1D.StepSucceedsOnStates` | cellularexplorations/cellular_automaton.py:93-96 | while every cell is in `[0, num_states)` the step cannot fail: every code in use has a table and every code indexes it |
| `Automaton.CellularAutomaton1D.ZeroGridIsFixedPoint` | cellularexplorations/cellular_automaton.py:93-96 | the all-zero grid is a fixed point of the step |
| `Automaton.CellularAutomaton1D.InclusiveStateBoundBreaksStep` | cellularexplorations/cellular_automaton.py:70 | a cell holding `num_states`, which the state check admits, makes the next step fail with `IndexError` when it is the rightmost neighbour of an evolving cell |
| `Automaton.CellularAutomaton1D.OnlyIndexErrors` | cellularexplorations/cellular_automaton.py:94-95 | under the invariant, a run of cell updates can fail only with `IndexError`: no code in use lacks a table |

## Left out

- `cellularexplorations/cellularexplorations.py` is not part of this model. It is the tkinter display and click handling: the canvas, the colour palette, toggling and setting cells on screen, and the main loop.
- `main()` only prints the grid to the console.
- `CellularAutomaton2D` and `CellularAutomatonHex` are empty placeholder classes.
- The method `lookup_table_from_wolfram_code` on the class is never called. It duplicates the module-level builder, which is modelled.
- `random` is imported but unused. Random initialisers and interval or stride rule assignment do not exist in this code.
- The table builder is a placeholder, so the model has no decoding of a Wolfram code into a rule table. Scenarios that need a non-trivial rule, such as rule 110 or regions that evolve differently, do not arise.
- `Automaton.CellularAutomaton1D.constructor`: the code assertion is a precondition rather than an error result, because a constructor cannot return one. Negative or non-integer `width`, `neighborhood_radius` and `num_states` are excluded by their `nat` types. With those, Python's `**` would give floats or an empty range.
- Exceptions are values (`Lists.Error`) rather than Python exceptions. A failing assertion in `set_state_local` is `InvalidState`.
- Codes and states are Python integers, modelled as unbounded `int`. There is no overflow to model.
- The Python lists `grid` and `rule_grid`, which `set_state_local` and `update_rule_local` change in place, are modelled as sequence values that the methods reassign, and `rule_dict` as a map value. Aliasing of those list and dict objects by other code is therefore not captured. Nothing in this code shares them.
