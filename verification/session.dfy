/** Sequences of frames and resets, and what stays true along them. */
module Session {
  import opened Grid

  /** What can happen to the game between two observations: a frame of
      `Update` with some movement keys down, or a call of `ResetGame`. */
  datatype Event = Press(keys: Keys) | Reset

  function Apply(s: State, e: Event, colorCount: nat): (r: State)
    requires Consistent(s)
    ensures Consistent(r)
  {
    match e
    case Press(keys) => Next(s, keys, colorCount).state
    case Reset => Cleared(s, colorCount)
  }

  /** The state after `events`, in order. Whatever the events, the player
      stays inside the grid. */
  function Run(s: State, events: seq<Event>, colorCount: nat): (r: State)
    requires Consistent(s)
    ensures Consistent(r)
    decreases |events|
  {
    if events == [] then s
    else Run(Apply(s, events[0], colorCount), events[1..], colorCount)
  }

  /** How many of `events` dug a cell (the frames that reached line 92). */
  function DigCount(s: State, events: seq<Event>, colorCount: nat): nat
    requires Consistent(s)
    decreases |events|
  {
    if events == [] then 0
    else
      var here := match events[0]
        case Press(keys) =>
          var o := Next(s, keys, colorCount).outcome;
          if o.Moved? || o.ColorFault? then 1 else 0
        case Reset => 0;
      here + DigCount(Apply(s, events[0], colorCount), events[1..], colorCount)
  }

  predicate NoReset(events: seq<Event>)
  {
    forall i :: 0 <= i < |events| ==> events[i].Press?
  }

  /** Every depth on `b` can be raised `n` more times without wrapping. */
  predicate Headroom(b: Board, n: nat)
    requires WellFormed(b)
  {
    forall x, y :: 0 <= x < GridSize && 0 <= y < GridSize ==> b[x][y].0 as int + n <= MaxInt32
  }

  /** `b'` is `b` dug further: no depth is lower, no symbol differs. */
  predicate Deeper(b': Board, b: Board)
    requires WellFormed(b') && WellFormed(b)
  {
    forall x, y :: 0 <= x < GridSize && 0 <= y < GridSize ==>
      b'[x][y].0 >= b[x][y].0 && b'[x][y].1 == b[x][y].1
  }

  /** Short of wrap-around, one frame raises each depth by at most one,
      spends at most one unit of headroom, and lowers no depth. */
  lemma PressDigsDeeper(s: State, keys: Keys, colorCount: nat, n: nat)
    requires Consistent(s) && Headroom(s.board, n + 1)
    ensures Headroom(Next(s, keys, colorCount).state.board, n)
    ensures Deeper(Next(s, keys, colorCount).state.board, s.board)
    ensures forall x, y :: 0 <= x < GridSize && 0 <= y < GridSize ==>
      Next(s, keys, colorCount).state.board[x][y].0 as int <= s.board[x][y].0 as int + 1
  {
  }

  /** Without a reset, depths never decrease and symbols never change: as
      long as no depth reaches the top of the `int` range, only `ResetGame`
      brings a depth back down. */
  lemma {:induction false} DepthsNeverDecrease(s: State, events: seq<Event>, colorCount: nat)
    requires Consistent(s) && NoReset(events) && Headroom(s.board, |events|)
    ensures Deeper(Run(s, events, colorCount).board, s.board)
    decreases |events|
  {
    if events != [] {
      var keys := events[0].keys;
      var s' := Next(s, keys, colorCount).state;
      PressDigsDeeper(s, keys, colorCount, |events| - 1);
      assert NoReset(events[1..]) by {
        forall i | 0 <= i < |events[1..]| ensures events[1..][i].Press? {
          assert events[1..][i] == events[i + 1];
        }
      }
      DepthsNeverDecrease(s', events[1..], colorCount);
    }
  }

  function RowDepth(row: seq<Cell>): int
  {
    if row == [] then 0 else row[0].0 as int + RowDepth(row[1..])
  }

  /** The sum of all depths on the board. */
  function BoardDepth(b: seq<seq<Cell>>): int
  {
    if b == [] then 0 else RowDepth(b[0]) + BoardDepth(b[1..])
  }

  lemma {:induction false} RowDepthUpdate(row: seq<Cell>, y: nat, c: Cell)
    requires y < |row|
    ensures RowDepth(row[y := c]) == RowDepth(row) - row[y].0 as int + c.0 as int
  {
    if y == 0 {
      assert row[y := c][1..] == row[1..];
    } else {
      assert row[y := c][1..] == row[1..][y - 1 := c];
      RowDepthUpdate(row[1..], y - 1, c);
    }
  }

  lemma {:induction false} BoardDepthUpdate(b: seq<seq<Cell>>, x: nat, row: seq<Cell>)
    requires x < |b|
    ensures BoardDepth(b[x := row]) == BoardDepth(b) - RowDepth(b[x]) + RowDepth(row)
  {
    if x == 0 {
      assert b[x := row][1..] == b[1..];
    } else {
      assert b[x := row][1..] == b[1..][x - 1 := row];
      BoardDepthUpdate(b[1..], x - 1, row);
    }
  }

  /** Digging a cell that has not reached the top of the `int` range adds
      exactly one to the total depth. */
  lemma DigAddsOne(b: Board, p: Vec)
    requires WellFormed(b) && InBounds(p) && Depth(b, p) as int < MaxInt32
    ensures BoardDepth(Dig(b, p)) == BoardDepth(b) + 1
  {
    var c := (WrapInc(b[p.x][p.y].0), b[p.x][p.y].1);
    RowDepthUpdate(b[p.x], p.y, c);
    BoardDepthUpdate(b, p.x, b[p.x][p.y := c]);
  }

  /** Without a reset and without wrap-around, the total depth on the board
      grows by exactly the number of frames that dug a cell. */
  lemma {:induction false} TotalDepthCountsDigs(s: State, events: seq<Event>, colorCount: nat)
    requires Consistent(s) && NoReset(events) && Headroom(s.board, |events|)
    ensures BoardDepth(Run(s, events, colorCount).board) ==
      BoardDepth(s.board) + DigCount(s, events, colorCount)
    decreases |events|
  {
    if events != [] {
      var keys := events[0].keys;
      var t := Next(s, keys, colorCount);
      PressDigsDeeper(s, keys, colorCount, |events| - 1);
      if t.outcome.Moved? || t.outcome.ColorFault? {
        DigAddsOne(s.board, s.pos);
      }
      assert NoReset(events[1..]) by {
        forall i | 0 <= i < |events[1..]| ensures events[1..][i].Press? {
          assert events[1..][i] == events[i + 1];
        }
      }
      TotalDepthCountsDigs(t.state, events[1..], colorCount);
    }
  }

  /** Once the cell under the player is as deep as the last colour index
      (depth + 1 >= number of colours), every attempt to leave it fails at
      the colour lookup: without a reset the player never moves again,
      however the keys are pressed, until the depth wraps around. */
  lemma {:induction false} StuckOnLastColor(s: State, events: seq<Event>, colorCount: nat)
    requires Consistent(s) && NoReset(events) && Headroom(s.board, |events|)
    requires 0 <= Depth(s.board, s.pos) as int && colorCount <= Depth(s.board, s.pos) as int + 1
    ensures Run(s, events, colorCount).pos == s.pos
    decreases |events|
  {
    if events != [] {
      var keys := events[0].keys;
      var t := Next(s, keys, colorCount);
      PressDigsDeeper(s, keys, colorCount, |events| - 1);
      ColorIndexIsNewDepth(s, keys, colorCount);
      assert t.state.pos == s.pos;
      assert NoReset(events[1..]) by {
        forall i | 0 <= i < |events[1..]| ensures events[1..][i].Press? {
          assert events[1..][i] == events[i + 1];
        }
      }
      StuckOnLastColor(t.state, events[1..], colorCount);
    }
  }
}
