# Tile-map editor history, entity registry and key bindings

A Dafny model of the core of a small pygame engine scaffold:

- **The tile-map editor** (`engine/map_editor/map_editor.py`). The map is a
  rectangular grid of tile keys. Beside it sit an undo stack and a redo stack
  of full map snapshots. `push_state` snapshots the map and clears redo.
  `undo` and `redo` move snapshots between the two stacks and do nothing when
  their source stack is empty. A mouse click inside the map rectangle paints
  the selected tile into one cell. A click inside a palette slot selects that
  slot's tile key. The keys z, y and r undo, redo and save.
- **The entity registry** (`engine/core.py`): `add_entity` appends to the
  engine's entity list and `remove_entity` removes the first occurrence.
- **The key-binding table** (`engine/input_handling.py`). `load_key_bindings`
  resolves configured key names to key codes and drops unknown names. `run`
  dispatches a key press through the table to a registered action.

Layout:

- `tile_grid.dfy` (module `TileGrid`): the grid type and the one-cell write.
- `edit_history.dfy` (module `EditHistory`): the history as a value
  (`History`: map, undo stack, redo stack). It holds the specification
  functions `Pushed`, `Undone`, `Redone` and `Painted`, and the lemmas relating
  them.
- `map_editor.dfy` (module `MapEditing`): the screen layout constants, the map
  hit test `CellAt`, the palette hit test `SlotAt`, and the click specification
  `Click`. It also holds the `MapEditor` class, whose fields change in place.
  Each of its methods is proved to produce exactly the `History` the
  specification functions give.
- `core.dfy` (module `Core`): `RemoveFirst` (Python's `list.remove`) and the
  `GameEngine` class.
- `input_handling.dfy` (module `InputHandling`): the converted table
  `Converted`, the loading loop `LoadKeyBindings`, and the dispatch
  `Dispatch`.
- `wrappers.dfy` (module `Wrappers`): `Option`.

Modelling choices:

- The map attribute `map` is called `grid`, because `map` is a Dafny keyword.
  The grid and the snapshots are `seq<seq<string>>` values. The source takes
  deep copies when it pushes a snapshot, and after `undo`/`redo` the restored
  list is no longer on any stack. So no list is ever shared, and value
  semantics are exact. The in-place cell write `self.map[row][col] = t`
  becomes the reassignment `grid := grid[row := grid[row][col := t]]`.
- The source never validates map data when it loads it. The constructor
  therefore *requires* a non-empty rectangular map and a non-empty palette.
  The source itself fails on `map[0]` and `tile_keys[0]` when either is empty.
  `MapEditor.Valid()` keeps the following invariant:
  - the map and every snapshot have the dimensions fixed at load time;
  - the selected tile is a palette key.
- Layout constants are taken from the code:
  - tile size 32;
  - map origin (32·4+50, 20) = (178, 20);
  - palette slot `i` at (20, 20+74·i), 64×64.
- `pygame.Rect.collidepoint` is half-open. Python's `//` agrees with Dafny's
  `/` here, because it is only applied to non-negative offsets inside the
  rectangle.
- Key codes used: pygame `K_z` = 122, `K_y` = 121, `K_r` = 114. The event
  type `KEYDOWN` = 768.
- The source's saving (`save_map`) is represented by a ghost field
  `savedMap`: the map file's contents after the last save.
- Key bindings:
  - The pygame constant table is a parameter `constants: map<string, int>`.
    It stands for `getattr(pygame, name, None)`.
  - The action callables are a parameter `actions: map<string, ActionId>`.
  - The configuration is the sequence of (name, action) pairs in the order
    the loop reads them.
  - Calling an action becomes the returned outcome `Invoke(a)`.
  - Each printed warning becomes a returned value: `Warn(name)` from
    `Dispatch`, and the `skipped` list from `LoadKeyBindings`.
- The Load button only prints a message
  (`engine/map_editor/map_editor.py:63-64`), and `InputHandling` loads no
  mouse bindings. Neither is modelled.

## Model

| member | source | states |
|---|---|---|
| TileGrid.SetCell | engine/map_editor/map_editor.py:80 | the written cell holds the tile; every other cell, the row count and every row length are unchanged; rectangularity is kept |
| EditHistory.Pushed | engine/map_editor/map_editor.py:164-168 | the current map becomes the new undo top and the old undo stack is kept below it; redo becomes empty; the map is unchanged; snapshot dimensions are kept |
| EditHistory.Undone | engine/map_editor/map_editor.py:170-175 | no-op on an empty undo stack; otherwise the old map goes on top of redo and the undo top, removed from undo, becomes the map; `|undo| + |redo|` is preserved; snapshot dimensions are kept |
| EditHistory.Redone | engine/map_editor/map_editor.py:178-183 | mirror of undo: no-op on an empty redo stack; otherwise the old map goes on top of undo and the redo top, removed from redo, becomes the map; `|undo| + |redo|` is preserved |
| EditHistory.Painted | engine/map_editor/map_editor.py:79-80 | one paint: the pre-paint map is pushed on undo, redo is empty, only the painted cell changes, to the tile |
| EditHistory.PaintAll | engine/map_editor/map_editor.py:79-80 | a sequence of in-range paints pushes one snapshot per paint on top of the old undo stack, the first of them the map before the edits, keeps the dimensions, and leaves redo empty |
| EditHistory.UndoneN | engine/map_editor/map_editor.py:170-175 | repeated undo keeps the total number of snapshots and removes exactly `n` from a stack of at least `n` |
| EditHistory.UndoThenRedo | engine/map_editor/map_editor.py:170-184 | undo then redo restores the map and both stacks exactly, unless the undo stack is empty and the redo stack is not |
| EditHistory.UndoThenRedoCounterexample | engine/map_editor/map_editor.py:170-184 | the exception to the round trip: with an empty undo stack and a different map on redo (reachable by paint then undo), undo does nothing and redo then changes the map |
| EditHistory.RedoThenUndo | engine/map_editor/map_editor.py:170-184 | redo then undo restores the map and both stacks exactly, unless the redo stack is empty and the undo stack is not |
| EditHistory.UndoPaint | engine/map_editor/map_editor.py:164-175 | undoing a paint restores the map and the undo stack, and leaves exactly the painted map on redo |
| EditHistory.RedoAfterPaint | engine/map_editor/map_editor.py:164-168 | after any paint, redo is a no-op (a fresh edit invalidates redo history) |
| EditHistory.PaintAllThenUndoAll | engine/map_editor/map_editor.py:164-175 | N in-range paints followed by N undos give back the original map and undo stack |
| MapEditing.CellAt | engine/map_editor/map_editor.py:68-78 | a cell is found exactly when the pixel is inside the half-open map rectangle; the cell is always in range, so the row/col guard always passes; the cell's 32×32 square contains the pixel |
| MapEditing.Click | engine/map_editor/map_editor.py:68-80 | outside the map rectangle the map and both stacks are unchanged; inside, undo gains the pre-click map, redo is cleared, the clicked cell becomes the selected tile and all other cells are unchanged; dimensions are kept |
| MapEditing.ClickSameTile | engine/map_editor/map_editor.py:78-80 | clicking a cell that already holds the selected tile leaves the map unchanged but still pushes a snapshot |
| MapEditing.SlotIndex | engine/map_editor/map_editor.py:86-90 | a pixel in palette slot `i` has `i` as the quotient of its vertical offset by the 74-pixel pitch, with remainder under 64 |
| MapEditing.SlotsDisjoint | engine/map_editor/map_editor.py:86-92 | no pixel lies in two palette slots, so the first matching slot is the only one |
| MapEditing.SlotAt | engine/map_editor/map_editor.py:84-92 | closed-form palette hit test: returns a slot index below the palette size whose slot contains the pixel, or none exactly when no slot contains it |
| MapEditing.SlotAtHit | engine/map_editor/map_editor.py:84-92 | a pixel inside slot `i` of a palette of `n` slots is reported as slot `i` |
| MapEditing.MapEditor.constructor | engine/map_editor/map_editor.py:14-27 | the first palette key is selected, both stacks are empty, the dimensions come from the loaded map, and the invariant holds |
| MapEditing.MapEditor.PushState | engine/map_editor/map_editor.py:164-168 | the object's map and stacks become `Pushed` of the old ones; selection and the saved map are unchanged; the invariant is kept |
| MapEditing.MapEditor.Undo | engine/map_editor/map_editor.py:170-176 | the object's map and stacks become `Undone` of the old ones; the map is saved exactly when something was undone |
| MapEditing.MapEditor.Redo | engine/map_editor/map_editor.py:178-184 | the object's map and stacks become `Redone` of the old ones; the map is saved exactly when something was redone |
| MapEditing.MapEditor.KeyDown | engine/map_editor/map_editor.py:47-56 | z undoes, y redoes, r saves the current map, any other key changes nothing; the selection is unchanged |
| MapEditing.MapEditor.ClickMap | engine/map_editor/map_editor.py:68-80 | the object's map and stacks become `Click` of the old ones with the selected tile |
| MapEditing.MapEditor.ClickPalette | engine/map_editor/map_editor.py:84-92 | the loop selects the key of the slot `SlotAt` reports, or keeps the selection when none; the selection stays a palette key |
| MapEditing.MapEditor.MouseDown | engine/map_editor/map_editor.py:57-92 | a press paints with the tile selected before the press, then updates the selection from the palette |
| Core.IndexOf | engine/core.py:33-34 | the first position holding the entity: it holds the entity and no earlier position does |
| Core.RemoveFirst | engine/core.py:29-34 | removing an absent entity changes nothing; removing a present one shortens the list by one |
| Core.RemoveFirstSplice | engine/core.py:33-34 | removal cuts out exactly the first occurrence and keeps the other entities in their order |
| Core.RemoveFirstMultiset | engine/core.py:33-34 | removal takes exactly one copy of the entity out of the list's multiset, and none when absent |
| Core.AddThenRemove | engine/core.py:23-34 | adding an entity that was not registered and then removing it gives back the list |
| Core.GameEngine.constructor | engine/core.py:7-17 | a new engine keeps the given screen size (800×600 by default) and has an empty entity list |
| Core.GameEngine.AddEntity | engine/core.py:23-27 | the entity is appended: length grows by one and earlier entries are unchanged |
| Core.GameEngine.RemoveEntity | engine/core.py:29-34 | an absent entity leaves the list unchanged; a present one loses exactly its first occurrence, the rest keeping their order |
| InputHandling.Converted | engine/input_handling.py:13-23 | every code in the converted table is the code of some configured name |
| InputHandling.Unresolved | engine/input_handling.py:17-22 | the skipped names are exactly the configured names that resolve to no key constant |
| InputHandling.LoadKeyBindings | engine/input_handling.py:13-23 | the loop builds exactly the converted table and the list of skipped names |
| InputHandling.ConvertedLastWins | engine/input_handling.py:17-20 | a binding kept for a code carries unchanged the action of the last configured name resolving to that code |
| InputHandling.ConvertedDomain | engine/input_handling.py:16-23 | a code is bound if and only if some configured name resolves to it |
| InputHandling.Dispatch | engine/input_handling.py:25-33 | non-key-down events, unbound keys and empty action names do nothing; a bound action with a callable invokes exactly that callable; a bound action without one only warns |
| InputHandling.LoadedDispatch | engine/input_handling.py:13-31 | after loading, pressing a configured key invokes the callable of the last name bound to that code |
| InputHandling.UnboundKeyIgnored | engine/input_handling.py:25-28 | after loading, pressing a key that no configured name resolves to does nothing |

## Left out

- Reading and writing the map file (`load_map`, `save_map`), listing and loading tile images (`load_images`), and reading the key-binding JSON: file I/O. The loaded map, the palette keys and the bindings are parameters. Saving is represented only by the ghost `savedMap`.
- Drawing (`draw`), buttons and their hover colours, surfaces and blitting: rendering.
- The editor's `run` loop, `pygame.event.get`, the mouse position query, and the Escape/quit exit: the event pump and process exit.
- The Undo, Redo, Save and Load button hit-tests: they depend on a `Button.checkForInput` that is not part of this model. `MouseDown` models the rest of the press.
- The `GameEngine` forwarding methods (`update`, `render`, `input_handling`, `map_editor`) and the construction of its input handler and map editor: they only call into objects with I/O.
- The particle system, the display wrappers, the scene manager and `main.py`: floating-point kinematics and pygame glue.
- InputHandling.Dispatch: the action is returned, not called. A registered value that Python treats as false (such as `None`) cannot be expressed, because every registered `ActionId` stands for a callable. Nor can a missing action table: `GameEngine`'s default `actions=None` (engine/core.py:7, 13) makes `run` raise `AttributeError` at `self.actions.get` (engine/input_handling.py:29) on the first key press bound to a non-empty action name, whereas `actions` here is always a map.
- Printed warnings: modelled as returned values, not as output.
