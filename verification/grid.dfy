/** Values of the excavation game: the 5x5 grid of (depth, symbol) cells, the
    player position, the keys pressed in one frame, and the reference
    definition of one frame (`Next`) and of `ResetGame` (`Cleared`). */
module Grid {

  /** `GridSize`: the grid is GridSize x GridSize. */
  const GridSize: int := 5

  const MaxInt32: int := 0x7FFF_FFFF

  /** C#'s 32-bit `int`, the type of a cell's depth. */
  newtype int32 = x: int | -0x8000_0000 <= x < 0x8000_0000

  /** `+ 1` on a C# `int` in the default unchecked context: two's-complement
      wrap-around, so the largest value becomes the smallest. */
  function WrapInc(d: int32): (r: int32)
    ensures r as int == (d as int + 0x8000_0001) % 0x1_0000_0000 - 0x8000_0000
    ensures d as int < MaxInt32 ==> r as int == d as int + 1
  {
    if d as int == MaxInt32 then -0x8000_0000 else (d as int + 1) as int32
  }

  /** One grid cell `(Item1, Item2)`: how often it has been dug, and its symbol. */
  type Cell = (int32, char)

  /** `Vector2Int`; `x` is the first array index, `y` the second. */
  datatype Vec = Vec(x: int, y: int)

  function Add(p: Vec, d: Vec): Vec
  {
    Vec(p.x + d.x, p.y + d.y)
  }

  predicate InBounds(p: Vec)
  {
    0 <= p.x < GridSize && 0 <= p.y < GridSize
  }

  /** The movement keys that went down in one frame (W, S, A, D). */
  datatype Keys = Keys(w: bool, s: bool, a: bool, d: bool)

  /** The contribution of one axis: +1 for its positive key, -1 for its
      negative key, and the two cancel. */
  function Axis(plus: bool, minus: bool): int
  {
    (if plus then 1 else 0) - (if minus then 1 else 0)
  }

  /** The combined movement of one frame: W is +y, S is -y, A is -x, D is +x. */
  function KeyDelta(k: Keys): (d: Vec)
    ensures -1 <= d.x <= 1 && -1 <= d.y <= 1
    ensures d.x == 1 <==> k.d && !k.a
    ensures d.x == -1 <==> k.a && !k.d
    ensures d.y == 1 <==> k.w && !k.s
    ensures d.y == -1 <==> k.s && !k.w
    ensures d == Vec(0, 0) <==> k.w == k.s && k.a == k.d
  {
    Vec(Axis(k.d, k.a), Axis(k.w, k.s))
  }

  /** The grid as a value: `b[x][y]` is the cell `grid[x, y]`. */
  type Board = seq<seq<Cell>>

  predicate WellFormed(b: Board)
  {
    |b| == GridSize && forall x :: 0 <= x < GridSize ==> |b[x]| == GridSize
  }

  function Depth(b: Board, p: Vec): int32
    requires WellFormed(b) && InBounds(p)
  {
    b[p.x][p.y].0
  }

  /** The board in which the cell at `p` has been dug once more: its depth
      goes up by one, its symbol and every other cell stay as they were. */
  function Dig(b: Board, p: Vec): (r: Board)
    requires WellFormed(b) && InBounds(p)
    ensures WellFormed(r)
    ensures r[p.x][p.y].0 == WrapInc(b[p.x][p.y].0)
    ensures forall x, y :: 0 <= x < GridSize && 0 <= y < GridSize ==> r[x][y].1 == b[x][y].1
    ensures forall x, y :: 0 <= x < GridSize && 0 <= y < GridSize && (x != p.x || y != p.y) ==>
      r[x][y] == b[x][y]
  {
    b[p.x := b[p.x][p.y := (WrapInc(b[p.x][p.y].0), b[p.x][p.y].1)]]
  }

  /** The colour index chosen for a cell whose depth became `newDepth`: the
      depth itself, or the last colour for a negative depth. */
  function ColorIndex(newDepth: int32, colorCount: nat): int
  {
    if newDepth < 0 then colorCount - 1 else newDepth as int
  }

  /** What the game holds between frames: the grid and `_playerPos`. */
  datatype State = State(board: Board, pos: Vec)

  predicate Consistent(s: State)
  {
    WellFormed(s.board) && InBounds(s.pos)
  }

  /** What one frame did.
      - Idle: no movement (no key, or opposite keys cancelled).
      - OffGrid: the target lies outside the grid.
      - Moved: the cell `left` was dug and recoloured with `colorIndex`,
        and the player moved.
      - ColorFault: the cell `left` was dug, but `colorIndex` lies outside
        the colour array, so the colour lookup fails and the frame ends
        before the player moves. */
  datatype Outcome =
    | Idle
    | OffGrid
    | Moved(left: Vec, colorIndex: int)
    | ColorFault(left: Vec, colorIndex: int)

  datatype Transition = Transition(state: State, outcome: Outcome)

  /** One frame of `Update` on a colour array of `colorCount` entries. */
  function Next(s: State, keys: Keys, colorCount: nat): (t: Transition)
    requires Consistent(s)
    ensures Consistent(t.state)
    ensures t.outcome.Idle? <==> KeyDelta(keys) == Vec(0, 0)
    ensures t.outcome.OffGrid? <==>
      KeyDelta(keys) != Vec(0, 0) && !InBounds(Add(s.pos, KeyDelta(keys)))
    ensures t.outcome.Idle? || t.outcome.OffGrid? ==> t.state == s
    ensures t.outcome.Moved? || t.outcome.ColorFault? ==>
      t.outcome.left == s.pos && t.state.board == Dig(s.board, s.pos)
    ensures t.outcome.Moved? ==>
      t.state.pos == Add(s.pos, KeyDelta(keys)) && 0 <= t.outcome.colorIndex < colorCount
    ensures t.outcome.ColorFault? ==>
      t.state.pos == s.pos && !(0 <= t.outcome.colorIndex < colorCount)
  {
    var delta := KeyDelta(keys);
    if delta == Vec(0, 0) then
      Transition(s, Idle)
    else
      var target := Add(s.pos, delta);
      if !InBounds(target) then
        Transition(s, OffGrid)
      else
        var index := ColorIndex(WrapInc(Depth(s.board, s.pos)), colorCount);
        var board := Dig(s.board, s.pos);
        if 0 <= index < colorCount then
          Transition(State(board, target), Moved(s.pos, index))
        else
          Transition(State(board, s.pos), ColorFault(s.pos, index))
  }

  /** While the cell being left has a depth in [-1, `int.MaxValue`), the
      colour index is exactly the new depth (at least 0, and at least 1 when
      the old depth was non-negative), so the negative fallback does not
      fire, and the move goes through exactly when that depth is a valid
      index into the colour array. */
  lemma ColorIndexIsNewDepth(s: State, keys: Keys, colorCount: nat)
    requires Consistent(s)
    requires -1 <= Depth(s.board, s.pos) as int < MaxInt32
    ensures var t := Next(s, keys, colorCount);
      (t.outcome.Moved? || t.outcome.ColorFault?) ==>
        t.outcome.colorIndex == Depth(s.board, s.pos) as int + 1 >= 0 &&
        (Depth(s.board, s.pos) >= 0 ==> t.outcome.colorIndex >= 1) &&
        (t.outcome.Moved? <==> Depth(s.board, s.pos) as int + 1 < colorCount)
  {
  }

  /** The negative-depth fallback of `ColorIndex` is reached only after the
      depth of a cell has wrapped around (a new depth below 0 means the old
      depth was `int.MaxValue` or already negative). Then the last colour is
      picked and the player moves; with an empty colour array the index is
      -1 and the lookup fails before the move. */
  lemma FallbackAfterWrap(s: State, keys: Keys, colorCount: nat)
    requires Consistent(s)
    requires Depth(s.board, s.pos) as int == MaxInt32 || Depth(s.board, s.pos) as int < -1
    requires KeyDelta(keys) != Vec(0, 0) && InBounds(Add(s.pos, KeyDelta(keys)))
    ensures var t := Next(s, keys, colorCount);
      WrapInc(Depth(s.board, s.pos)) < 0 &&
      t.state.board == Dig(s.board, s.pos) &&
      (colorCount > 0 ==>
        t.outcome == Moved(s.pos, colorCount - 1) && t.state.pos == Add(s.pos, KeyDelta(keys))) &&
      (colorCount == 0 ==> t.outcome == ColorFault(s.pos, -1) && t.state.pos == s.pos)
    ensures Depth(s.board, s.pos) as int == MaxInt32 ==>
      Depth(Next(s, keys, colorCount).state.board, s.pos) as int == -MaxInt32 - 1
  {
  }

  /** The board whose every cell is `c`. */
  function Filled(c: Cell): (b: Board)
    ensures WellFormed(b)
    ensures forall x, y :: 0 <= x < GridSize && 0 <= y < GridSize ==> b[x][y] == c
  {
    seq(GridSize, x => seq(GridSize, y => c))
  }

  /** The board after `ResetGame` finished: every cell is (0, '.'). */
  function Blank(): Board
  {
    Filled((0, '.'))
  }

  /** The board a new game object starts with: every cell is (0, '\0'), the
      default value of the tuple. */
  function Unset(): Board
  {
    Filled((0, '\0'))
  }

  /** `ResetGame` on a colour array of `colorCount` entries. Every cell
      becomes (0, '.'); with no colours the first tile's colour lookup fails
      right after cell (0, 0) was written, and the rest of the grid is left
      as it was. The player position is never touched. */
  function Cleared(s: State, colorCount: nat): (r: State)
    requires Consistent(s)
    ensures Consistent(r) && r.pos == s.pos
    ensures colorCount > 0 ==>
      forall x, y :: 0 <= x < GridSize && 0 <= y < GridSize ==> r.board[x][y] == (0, '.')
    ensures colorCount == 0 ==> r.board[0][0] == (0, '.')
    ensures colorCount == 0 ==>
      forall x, y :: 0 <= x < GridSize && 0 <= y < GridSize && (x, y) != (0, 0) ==>
        r.board[x][y] == s.board[x][y]
  {
    if colorCount > 0 then State(Blank(), s.pos)
    else State(s.board[0 := s.board[0][0 := (0, '.')]], s.pos)
  }

  /** Two well-formed boards that agree on every cell are the same board. */
  lemma BoardsEqual(a: Board, b: Board)
    requires WellFormed(a) && WellFormed(b)
    requires forall x, y :: 0 <= x < GridSize && 0 <= y < GridSize ==> a[x][y] == b[x][y]
    ensures a == b
  {
    forall x | 0 <= x < GridSize
      ensures a[x] == b[x]
    {
    }
  }
}
