/** The `GameMain` component: the grid array, the player position and the
    two operations that change them, `ResetGame` and one frame of `Update`. */
module Game {
  import opened Grid

  /** Builds the frame's movement from the keys that went down, one key at a
      time, as `Update` does before it decides whether to move. */
  method ReadDelta(keys: Keys) returns (delta: Vec)
    ensures delta == KeyDelta(keys)
  {
    delta := Vec(0, 0);
    if keys.w { delta := delta.(y := delta.y + 1); }
    if keys.s { delta := delta.(y := delta.y - 1); }
    if keys.a { delta := delta.(x := delta.x - 1); }
    if keys.d { delta := delta.(x := delta.x + 1); }
  }

  class GameMain {
    /** The length of `_levelColors`, set in the editor and never changed. */
    const colorCount: nat
    /** `grid[x, y]` is the (depth, symbol) pair of the cell at (x, y). */
    const grid: array2<Cell>
    var playerPos: Vec

    ghost predicate Valid()
      reads this
    {
      grid.Length0 == GridSize && grid.Length1 == GridSize && InBounds(playerPos)
    }

    /** The grid array as a board value. */
    ghost function Cells(): (b: Board)
      reads grid
      requires grid.Length0 == GridSize && grid.Length1 == GridSize
      ensures WellFormed(b)
      ensures forall x, y :: 0 <= x < GridSize && 0 <= y < GridSize ==> b[x][y] == grid[x, y]
    {
      var g := grid;
      seq(GridSize, x requires 0 <= x < GridSize reads g =>
        seq(GridSize, y requires 0 <= y < GridSize reads g => g[x, y]))
    }

    ghost function Snapshot(): (s: State)
      reads this, grid
      requires Valid()
      ensures Consistent(s)
    {
      State(Cells(), playerPos)
    }

    /** A new component, as its field initialisers leave it: every cell holds
        the default (0, '\0') and the player is at (0, 0). */
    constructor (colorCount: nat)
      ensures Valid() && fresh(grid)
      ensures this.colorCount == colorCount
      ensures Snapshot() == State(Unset(), Vec(0, 0))
    {
      this.colorCount := colorCount;
      grid := new Cell[GridSize, GridSize]((x, y) => (0, '\0'));
      playerPos := Vec(0, 0);
      new;
      BoardsEqual(Cells(), Unset());
    }

    /** Fills the grid with (0, '.') row by row. Painting each tile reads the
        first colour; with an empty colour array that lookup fails on the
        first tile and the method stops there (`completed` is false). */
    method ResetGame() returns (completed: bool)
      requires Valid()
      modifies grid
      ensures Valid()
      ensures completed == (colorCount > 0)
      ensures Snapshot() == Cleared(old(Snapshot()), colorCount)
    {
      ghost var before := Snapshot();
      for i := 0 to GridSize
        invariant colorCount > 0 || i == 0
        invariant forall x, y :: 0 <= x < i && 0 <= y < GridSize ==> grid[x, y] == (0, '.')
        invariant forall x, y :: i <= x < GridSize && 0 <= y < GridSize ==>
          grid[x, y] == before.board[x][y]
      {
        for j := 0 to GridSize
          invariant colorCount > 0 || j == 0
          invariant forall x, y :: 0 <= x < i && 0 <= y < GridSize ==> grid[x, y] == (0, '.')
          invariant forall y :: 0 <= y < j ==> grid[i, y] == (0, '.')
          invariant forall y :: j <= y < GridSize ==> grid[i, y] == before.board[i][y]
          invariant forall x, y :: i < x < GridSize && 0 <= y < GridSize ==>
            grid[x, y] == before.board[x][y]
        {
          grid[i, j] := (0, '.');
          if colorCount == 0 {
            completed := false;
            BoardsEqual(Cells(), Cleared(before, colorCount).board);
            return;
          }
        }
      }
      completed := true;
      BoardsEqual(Cells(), Blank());
    }

    /** One frame of `Update` with the movement keys `keys` down. With no
        movement, or a target off the grid, nothing changes. Otherwise the
        cell being left is dug, its new colour index is looked up, and the
        player moves by the delta; a colour index outside the colour array
        ends the frame after the dig and before the move. */
    method Update(keys: Keys) returns (outcome: Outcome)
      requires Valid()
      modifies this`playerPos, grid
      ensures Valid()
      ensures Transition(Snapshot(), outcome) == Next(old(Snapshot()), keys, colorCount)
    {
      ghost var before := Snapshot();
      var delta := ReadDelta(keys);
      if delta == Vec(0, 0) {
        return Idle;
      }
      var newPos := Vec(playerPos.x + delta.x, playerPos.y + delta.y);
      if newPos.x < 0 || newPos.x >= GridSize || newPos.y < 0 || newPos.y >= GridSize {
        return OffGrid;
      }
      var here := playerPos;
      var newDepth := WrapInc(grid[here.x, here.y].0);
      grid[here.x, here.y] := (newDepth, grid[here.x, here.y].1);
      BoardsEqual(Cells(), Dig(before.board, here));
      var newColorIndex := ColorIndex(newDepth, colorCount);
      if newColorIndex < 0 || newColorIndex >= colorCount {
        return ColorFault(here, newColorIndex);
      }
      playerPos := newPos;
      outcome := Moved(here, newColorIndex);
    }
  }
}
