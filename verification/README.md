# GameMain excavation grid, in Dafny

This project models the gameplay core of `GameMain` in the GGJ26 Unity game.
A player moves on a fixed 5x5 grid. Each cell holds a `(depth, symbol)` pair.
Each frame, the W/S/A/D keys that went down are summed into one movement
(`W` is +y, `S` is -y, `A` is -x, `D` is +x). Opposite keys cancel, and
diagonals are possible. A frame with no movement, or with a target off the
grid, does nothing. Otherwise the cell being left is dug: its depth goes up by
one. The new depth is used as an index into the level colour array
(`_levelColors`) to recolour that cell's tile, and the player moves.
`ResetGame` sets every cell to `(0, '.')`.

The project has three files:

- `grid.dfy` (module `Grid`) holds the values: cells as `(int32, char)`,
  boards as `seq<seq<Cell>>` indexed `b[x][y]`, positions, and the keys of one
  frame. It gives reference definitions of one frame (`Next`) and of a reset
  (`Cleared`) as functions on values.
- `game_main.dfy` (module `Game`) is the component itself. Class `GameMain`
  keeps the grid in an `array2<Cell>` and the player position in a field.
  `ResetGame` fills the array with nested loops. `Update` computes the delta
  key by key, writes the dug cell in place and moves the player. Each method's
  postcondition equates the new state with the reference definition applied
  to the old state.
- `session.dfy` (module `Session`) covers runs of frames and resets, with the
  properties that hold along them.

Behaviour of the code as written, which the model follows:

- Depth is a C# `int`. `+ 1` wraps from `int.MaxValue` to `int.MinValue`
  (unchecked arithmetic). This is the only way the "negative index means last
  colour" fallback can be reached (`FallbackAfterWrap`).
- The colour lookup `_levelColors[newColorIndex]` is not guarded. If the index
  is outside the colour array, the lookup throws. The frame then ends after the
  depth has been written and before the player moves. The model reports this
  as outcome `ColorFault`. From then on, every attempt to leave that cell fails
  the same way and digs it once more. The player is stuck until `ResetGame`,
  or until enough further attempts wrap the depth past `int.MaxValue`, after
  which the fallback colour lets the player move (`StuckOnLastColor`,
  `FallbackAfterWrap`).
- `ResetGame` paints each new tile with `_levelColors[0]`. With an empty colour
  array this throws on the first tile, after cell (0, 0) was written.
- `ResetGame` never touches the player position.
- A new component starts with every cell at `(0, '\0')`, the default tuple,
  and the player at (0, 0).

`Setup` builds three level strings that contain keys (`'K'`) and doors
(`'D'`), but nothing in `GameMain` reads them. Every cell's symbol is `'.'`
after a reset, and no step looks at a symbol.

## Model

| member | source | states |
|---|---|---|
| `Grid.WrapInc` | Assets/Scripts/Game/GameMain.cs:91 | the `+ 1` on a depth is two's-complement 32-bit arithmetic: the result is (d + 1) wrapped into [-2^31, 2^31), and exactly d + 1 below `int.MaxValue` |
| `Grid.KeyDelta` | Assets/Scripts/Game/GameMain.cs:77-81 | each axis of the frame's movement is in {-1, 0, 1}; it is +1 or -1 exactly when only that direction's key is down; the movement is zero exactly when W/S and A/D both cancel or are both up |
| `Game.ReadDelta` | Assets/Scripts/Game/GameMain.cs:77-81 | summing the keys one at a time, as `Update` does, yields exactly `KeyDelta` |
| `Grid.Dig` | Assets/Scripts/Game/GameMain.cs:91-92 | digging raises the depth of exactly the given cell by one (with wrap-around); its symbol and every other cell are unchanged |
| `Grid.Next` | Assets/Scripts/Game/GameMain.cs:77-99 | one frame: zero movement gives `Idle` and leaves grid and position unchanged; an off-grid target gives `OffGrid`, also with no change (the source depth is not raised); otherwise the cell left is dug, and either the player moves by exactly the delta with a valid colour index (`Moved`), or the colour index is outside the colour array and the player stays (`ColorFault`); the player is always on the grid afterwards |
| `Grid.ColorIndexIsNewDepth` | Assets/Scripts/Game/GameMain.cs:95-97 | describes `ColorIndex` on the non-negative range: for a cell of depth in [-1, `int.MaxValue`), the colour index used is the new depth, which is at least 0 (at least 1 when the old depth was non-negative), so the negative fallback does not fire; the move goes through exactly when that depth is below the colour count |
| `Grid.FallbackAfterWrap` | Assets/Scripts/Game/GameMain.cs:91-98 | describes `ColorIndex` on the negative range, for any grid and position: when the cell left has depth `int.MaxValue` (which wraps to `int.MinValue`) or a depth below -1, the new depth is negative; the cell is dug, and the fallback selects the last colour and the player moves by the delta, or, with an empty colour array, the index is -1 and the player stays |
| `Grid.Filled` | Assets/Scripts/Game/GameMain.cs:54-58 | the uniform board holds the given cell in every one of the 25 positions; a finished reset leaves `(0, '.')` everywhere, a new component `(0, '\0')` |
| `Grid.Cleared` | Assets/Scripts/Game/GameMain.cs:52-68 | a reset leaves the player position unchanged; with a non-empty colour array every cell becomes `(0, '.')`; with an empty one only cell (0, 0) does and every other cell is unchanged |
| `Game.GameMain.constructor` | Assets/Scripts/Game/GameMain.cs:16-21 | a new component has a 5x5 grid of `(0, '\0')` cells and the player at (0, 0) |
| `Game.GameMain.ResetGame` | Assets/Scripts/Game/GameMain.cs:52-68 | the nested loops leave the grid and position exactly as `Cleared` says, and the reset completes exactly when the colour array is non-empty |
| `Game.GameMain.Update` | Assets/Scripts/Game/GameMain.cs:77-99 | one frame, in place on the grid array and the position field, yields exactly the new state and outcome of `Next`, and keeps the player on the grid |
| `Session.Run` | Assets/Scripts/Game/GameMain.cs:85-98 | after any sequence of frames and resets the player is still inside [0, 5) x [0, 5) |
| `Session.PressDigsDeeper` | Assets/Scripts/Game/GameMain.cs:91-92 | short of wrap-around (every depth at least n + 1 below `int.MaxValue`), one frame lowers no depth, changes no symbol, raises each depth by at most one, and leaves every depth at least n below `int.MaxValue` |
| `Session.DepthsNeverDecrease` | Assets/Scripts/Game/GameMain.cs:91-92 | along any run of frames without a reset, and short of wrap-around, no depth decreases and no symbol changes, so only `ResetGame` brings depths back to 0 |
| `Session.DigAddsOne` | Assets/Scripts/Game/GameMain.cs:91-92 | digging a cell below `int.MaxValue` adds exactly one to the sum of all depths |
| `Session.TotalDepthCountsDigs` | Assets/Scripts/Game/GameMain.cs:91-92 | along a run of frames without a reset or wrap-around, the sum of all depths grows by exactly the number of frames that dug a cell |
| `Session.StuckOnLastColor` | Assets/Scripts/Game/GameMain.cs:91-98 | once the depth of the player's cell plus one reaches the colour count, no run of frames without a reset that is short of wrap-around (every depth stays below `int.MaxValue`) moves the player; past the wrap the fallback colour lets the player move again (`FallbackAfterWrap`) |

## Left out

- The K key and `_root.OnGameDone()` (lines 72-75): a call into `Root`, which is not part of this model. What `Root` does on this call is outside the model; the model assumes the frame goes on to the movement code.
- `Setup` (lines 24-50): it appends three level strings to `_levels`, which nothing reads.
- Rendering: tile instantiation, tile positions, materials and `_tileGos` (lines 60-63, 94, 97), and the player transform (lines 66, 99). The model keeps only which cell was recoloured and with which colour index (`Moved`), and where a colour lookup fails (`ColorFault`, and `completed` of `ResetGame`).
- Input polling with `Input.GetKeyDown` (lines 72-81): the keys that went down in a frame are a parameter (`Keys`).
- `Game.GameMain.Update` assumes `ResetGame` has created the tile objects. A frame that digs before any reset would fail on the missing tile at line 97. Who calls `ResetGame` and when is decided by `Root`, which is not part of this model.
- Positions and deltas are unbounded integers. The player position always stays in [0, 5), so 32-bit overflow cannot occur there.
