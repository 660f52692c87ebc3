/** The board: the grid of locked blocks and the active piece; the tick state machine
    (game over, else drop, else lock, clear and spawn), locking, the line-clear pass and the
    movement commands. */
module Board {
  import opened Geometry
  import opened Grid
  import opened Piece

  /** What one tick did. `Locked` carries the arguments of the scoring calls the clearing made
      (the running count of removed rows after each cleared row); `GameOver` stands for the
      call of the game's `game_over`. */
  datatype Tick = GameOver | Fell | Locked(scoring: seq<nat>)

  /** The running counts reported for `count` rows cleared after `before` rows. */
  function ScoringCalls(before: nat, count: nat): seq<nat> {
    seq(count, k => before + k + 1)
  }

  lemma ScoringCallsStep(before: nat, count: nat)
    ensures ScoringCalls(before, count + 1) == ScoringCalls(before, count) + [before + count + 1]
  {
  }

  /** A fresh grid: `RowsCount` new lists of `ColumnsCount` empty cells. */
  method NewGrid() returns (grid: seq<array<Cell>>)
    ensures WellFormed(grid) && Distinct(grid) && ViewOf(grid) == EmptyView()
    ensures forall r :: 0 <= r < |grid| ==> fresh(grid[r])
  {
    grid := [];
    for y := 0 to RowsCount
      invariant |grid| == y && Distinct(grid)
      invariant forall r :: 0 <= r < y ==> fresh(grid[r]) && grid[r][..] == BlankCells()
      invariant forall r :: 0 <= r < y ==> grid[r].Length == ColumnsCount
    {
      var row := new Cell[ColumnsCount](_ => Empty);
      assert row[..] == BlankCells();
      grid := grid + [row];
    }
    assert ViewOf(grid) == EmptyView() by {
      forall r | 0 <= r < RowsCount ensures ViewOf(grid)[r] == EmptyView()[r] {
        assert (grid[r] == grid[0]) == (r == 0);
      }
    }
  }

  /** A write into the list of row `p.y` is seen by every row sharing that list, and no other
      row changes. */
  lemma WriteSeen(grid: seq<array<Cell>>, p: Point, tag: string, before: seq<Row>)
    requires WellFormed(grid) && SharesOnlyTop(grid) && InBounds(p) && Consistent(before)
    requires forall r :: 0 <= r < |grid| ==> before[r].sharesTop == (grid[r] == grid[0])
    requires grid[p.y][..] == before[p.y].cells[p.x := Occupied(tag)]
    requires forall r :: 0 <= r < |grid| && grid[r] != grid[p.y] ==> grid[r][..] == before[r].cells
    ensures ViewOf(grid) == Write(before, p, tag)
  {
    forall r | 0 <= r < |grid| ensures ViewOf(grid)[r] == Write(before, p, tag)[r] {
      if r < p.y && grid[r] == grid[p.y] {
        assert grid[r] == grid[0];
      } else if r > p.y && grid[r] == grid[p.y] {
        assert grid[p.y] == grid[0];
      }
    }
  }

  /** The move the piece makes for `delta` and `deltaRotation` from rotation `index` and
      anchor `position`: the new index and anchor when the target fits, the old ones otherwise. */
  ghost predicate MoveOutcome(grid: seq<array<Cell>>, states: seq<seq<Point>>, index: nat, position: Point,
                              delta: Point, deltaRotation: int, index': nat, position': Point)
    reads grid
    requires WellFormed(grid) && Shape(states) && position.y >= 1 && delta.y >= 0
  {
    var target := (index + deltaRotation) % |states|;
    if Fits(grid, states[target], Add(position, delta))
    then index' == target && position' == Add(position, delta)
    else index' == index && position' == position
  }

  class TetrisBoard {
    var grid: seq<array<Cell>>
    var removedRowCount: nat
    var currentBlock: TetrisPiece

    /** The grid has its dimensions, rows share lists only with row 0, and the active piece
        is valid and lies inside the board. */
    ghost predicate Valid()
      reads this, grid, currentBlock
    {
      WellFormed(grid) && SharesOnlyTop(grid) && currentBlock.Valid() &&
      forall k :: 0 <= k < |currentBlock.Cells()| ==> InBounds(currentBlock.Cells()[k])
    }

    ghost function View(): seq<Row>
      reads this, grid
      requires WellFormed(grid)
    {
      ViewOf(grid)
    }

    /** `__init__`: the fixed 10 x 27 board, then `reset`. */
    constructor (kind: nat, colorIndex: nat)
      requires kind < |AllPieces()| && colorIndex < |AllColors|
      ensures Valid() && View() == EmptyView() && removedRowCount == 0
      ensures forall r :: 0 <= r < |grid| ==> fresh(grid[r])
      ensures fresh(currentBlock) && currentBlock.allRotations == AllPieces()[kind]
      ensures currentBlock.color == AllColors[colorIndex]
      ensures currentBlock.rotationIndex == 0 && currentBlock.position == SpawnPosition
    {
      var rows := NewGrid();
      var piece := GeneratePiece(kind, colorIndex);
      removedRowCount := 0;
      grid := rows;
      currentBlock := piece;
      new;
      SpawnInBounds(AllPieces()[kind]);
    }

    /** `reset`: no removed rows, a fresh empty grid and a new piece. */
    method Reset(kind: nat, colorIndex: nat)
      requires kind < |AllPieces()| && colorIndex < |AllColors|
      modifies this
      ensures Valid() && View() == EmptyView() && removedRowCount == 0
      ensures forall r :: 0 <= r < |grid| ==> fresh(grid[r])
      ensures fresh(currentBlock) && currentBlock.allRotations == AllPieces()[kind]
      ensures currentBlock.color == AllColors[colorIndex]
      ensures currentBlock.rotationIndex == 0 && currentBlock.position == SpawnPosition
    {
      removedRowCount := 0;
      grid := NewGrid();
      currentBlock := GeneratePiece(kind, colorIndex);
      SpawnInBounds(AllPieces()[kind]);
    }

    /** `is_game_over`: some cell of row 0 is occupied. */
    method IsGameOver() returns (over: bool)
      requires WellFormed(grid)
      ensures over == AnyOccupied(View()[0].cells)
    {
      var top := grid[0];
      for c := 0 to top.Length
        invariant forall k :: 0 <= k < c ==> top[k].Empty?
      {
        if top[c].Occupied? {
          return true;
        }
      }
      return false;
    }

    /** `next_piece`: replace the active piece by a new one at the spawn anchor. */
    method NextPiece(kind: nat, colorIndex: nat)
      requires WellFormed(grid) && SharesOnlyTop(grid)
      requires kind < |AllPieces()| && colorIndex < |AllColors|
      modifies this`currentBlock
      ensures Valid()
      ensures fresh(currentBlock) && currentBlock.allRotations == AllPieces()[kind]
      ensures currentBlock.color == AllColors[colorIndex]
      ensures currentBlock.rotationIndex == 0 && currentBlock.position == SpawnPosition
    {
      currentBlock := GeneratePiece(kind, colorIndex);
      SpawnInBounds(AllPieces()[kind]);
    }

    /** What one tick did to the board: with row 0 occupied it reports game over and changes
        nothing; else, when the piece fits one row lower, it falls and nothing else changes;
        else the piece is written into the grid, the clearing pass runs, one scoring call is
        reported per cleared row, and a new piece of shape `kind` and colour `colorIndex` is
        at the spawn anchor. */
    twostate predicate TickEffect(tick: Tick, kind: nat, colorIndex: nat)
      requires old(Valid()) && Valid() && kind < |AllPieces()| && colorIndex < |AllColors|
      reads this, grid, currentBlock
    {
      ((tick == GameOver) == AnyOccupied(old(View())[0].cells)) &&
      (tick == GameOver ==>
          grid == old(grid) && View() == old(View()) && removedRowCount == old(removedRowCount) &&
          currentBlock == old(currentBlock) && unchanged(currentBlock)) &&
      (tick != GameOver ==>
          (tick == Fell <==> old(Fits(grid, currentBlock.allRotations[currentBlock.rotationIndex],
                                      Add(currentBlock.position, Point(0, 1)))))) &&
      (tick == Fell ==>
          grid == old(grid) && View() == old(View()) && removedRowCount == old(removedRowCount) &&
          currentBlock == old(currentBlock) && currentBlock.allRotations == old(currentBlock.allRotations) &&
          currentBlock.rotationIndex == old(currentBlock.rotationIndex) &&
          currentBlock.color == old(currentBlock.color) &&
          currentBlock.position == Point(old(currentBlock.position).x, old(currentBlock.position).y + 1)) &&
      (tick.Locked? ==>
          var cleared := ClearFrom(Place(old(View()), old(currentBlock.Cells()), old(currentBlock.color)), 1);
          View() == cleared.rows && removedRowCount == old(removedRowCount) + cleared.count &&
          tick.scoring == ScoringCalls(old(removedRowCount), cleared.count) &&
          fresh(currentBlock) && currentBlock.allRotations == AllPieces()[kind] &&
          currentBlock.color == AllColors[colorIndex] &&
          currentBlock.rotationIndex == 0 && currentBlock.position == SpawnPosition)
    }

    /** `update`, one tick: when row 0 is occupied the game is over and nothing moves; else the
        piece drops one row if it can; else it is locked, full rows are cleared and a new piece
        of shape `kind` and colour `colorIndex` appears. */
    method Update(kind: nat, colorIndex: nat) returns (tick: Tick)
      requires Valid() && kind < |AllPieces()| && colorIndex < |AllColors|
      modifies this, grid, currentBlock
      ensures Valid()
      ensures TickEffect(tick, kind, colorIndex)
      ensures !tick.Locked? ==> removedRowCount == old(removedRowCount)
      ensures tick.Locked? ==>
        removedRowCount >= old(removedRowCount) &&
        tick.scoring == ScoringCalls(old(removedRowCount), removedRowCount - old(removedRowCount))
    {
      var over := IsGameOver();
      if over {
        return GameOver;
      }
      ghost var start, cells, count := View(), currentBlock.Cells(), removedRowCount;
      var dropped := currentBlock.DropOne(grid);
      if dropped {
        FitsInBounds(grid, currentBlock.allRotations[currentBlock.rotationIndex], currentBlock.position);
        tick := Fell;
      } else {
        tick := Lock(kind, colorIndex, start, cells, count);
      }
    }

    /** The locking branch of `update`: `_store_current`, then `next_piece`. */
    method Lock(kind: nat, colorIndex: nat, ghost start: seq<Row>, ghost cells: seq<Point>, ghost count: nat)
      returns (tick: Tick)
      requires Valid() && kind < |AllPieces()| && colorIndex < |AllColors|
      requires View() == start && currentBlock.Cells() == cells && removedRowCount == count
      modifies this, grid
      ensures Valid() && tick.Locked?
      ensures var cleared := ClearFrom(Place(start, cells, old(currentBlock.color)), 1);
        View() == cleared.rows && removedRowCount == count + cleared.count &&
        tick.scoring == ScoringCalls(count, cleared.count)
      ensures fresh(currentBlock) && currentBlock.allRotations == AllPieces()[kind]
      ensures currentBlock.color == AllColors[colorIndex]
      ensures currentBlock.rotationIndex == 0 && currentBlock.position == SpawnPosition
    {
      var scoring := StoreCurrent();
      NextPiece(kind, colorIndex);
      tick := Locked(scoring);
    }

    /** `_store_current`: write the active piece's colour into the four cells it covers, then
        run the clearing pass. A write goes to a row's list, so it is seen by every row sharing
        that list. */
    method StoreCurrent() returns (scoring: seq<nat>)
      requires Valid()
      modifies this, grid
      ensures WellFormed(grid) && SharesOnlyTop(grid) && currentBlock == old(currentBlock)
      ensures var cleared := ClearFrom(Place(old(View()), old(currentBlock.Cells()), currentBlock.color), 1);
        View() == cleared.rows && removedRowCount == old(removedRowCount) + cleared.count &&
        scoring == ScoringCalls(old(removedRowCount), cleared.count)
    {
      assert currentBlock.Cells() == Covered(currentBlock.allRotations[currentBlock.rotationIndex], currentBlock.position);
      WritePiece(currentBlock.allRotations[currentBlock.rotationIndex], currentBlock.position, currentBlock.color);
      scoring := RemoveFilled();
    }

    /** The writing loop of `_store_current`: each cell the offsets cover at the anchor gets
        the piece's colour. */
    method WritePiece(positions: seq<Point>, displacement: Point, tag: string)
      requires WellFormed(grid) && SharesOnlyTop(grid)
      requires forall k :: 0 <= k < |positions| ==> InBounds(Covered(positions, displacement)[k])
      modifies grid
      ensures View() == Place(old(View()), Covered(positions, displacement), tag)
    {
      ghost var cells := Covered(positions, displacement);
      ghost var start := View();
      ViewOfConsistent(grid);
      for k := 0 to |positions|
        invariant View() == Place(start, cells[..k], tag)
      {
        var p := Point(positions[k].x + displacement.x, positions[k].y + displacement.y);
        assert p == cells[k];
        ghost var before := View();
        grid[p.y][p.x] := Occupied(tag);
        WriteSeen(grid, p, tag, before);
        assert cells[..k + 1][..k] == cells[..k];
      }
      assert cells[..|positions|] == cells;
    }

    /** `_remove_filled`: scan rows 1 to the last; for every full row `i` put a new empty list
        at `i`, set row `j` to row `j - 1` for `j` from `i - 1` down to 1, count the removed
        row and report the new count to the game. */
    method RemoveFilled() returns (scoring: seq<nat>)
      requires WellFormed(grid) && SharesOnlyTop(grid)
      modifies this`grid, this`removedRowCount
      ensures WellFormed(grid) && SharesOnlyTop(grid)
      ensures var cleared := ClearFrom(old(View()), 1);
        View() == cleared.rows && removedRowCount == old(removedRowCount) + cleared.count &&
        scoring == ScoringCalls(old(removedRowCount), cleared.count)
    {
      scoring := [];
      ghost var goal := ClearFrom(View(), 1);
      ghost var start := removedRowCount;
      for i := 1 to |grid|
        invariant WellFormed(grid) && SharesOnlyTop(grid) && removedRowCount >= start
        invariant scoring == ScoringCalls(start, removedRowCount - start)
        invariant Scanned(View(), goal, removedRowCount - start, i)
      {
        scoring := ScanRow(i, goal, start, scoring);
      }
    }

    /** One step of the scan: row `i` is cleared or kept, and the scan moves to row `i + 1`. */
    method ScanRow(i: nat, ghost goal: Cleared, ghost start: nat, scoring: seq<nat>) returns (scoring': seq<nat>)
      requires WellFormed(grid) && SharesOnlyTop(grid) && 1 <= i < |grid| && removedRowCount >= start
      requires scoring == ScoringCalls(start, removedRowCount - start)
      requires Scanned(View(), goal, removedRowCount - start, i)
      modifies this`grid, this`removedRowCount
      ensures WellFormed(grid) && SharesOnlyTop(grid) && removedRowCount >= start
      ensures scoring' == ScoringCalls(start, removedRowCount - start)
      ensures Scanned(View(), goal, removedRowCount - start, i + 1)
    {
      ghost var before := View();
      ghost var cleared := removedRowCount - start;
      var full := ClearRow(i);
      ClearFromNext(before, i, View(), full, goal, cleared);
      if full {
        ScoringCallsStep(start, cleared);
        scoring' := scoring + [removedRowCount];
        assert removedRowCount - start == cleared + 1;
      } else {
        scoring' := scoring;
        assert removedRowCount - start == cleared;
      }
    }

    /** One row `i` of the scan of `_remove_filled`: when it is full it is shifted away and
        the removed-row count goes up by one; otherwise nothing changes. */
    method ClearRow(i: nat) returns (full: bool)
      requires WellFormed(grid) && SharesOnlyTop(grid) && 1 <= i < |grid|
      modifies this`grid, this`removedRowCount
      ensures WellFormed(grid) && SharesOnlyTop(grid)
      ensures full == Filled(old(View())[i].cells)
      ensures View() == if full then ShiftAsWritten(old(View()), i, BlankRow()) else old(View())
      ensures removedRowCount == old(removedRowCount) + if full then 1 else 0
    {
      full := AllFilled(grid[i]);
      if full {
        ShiftRows(i);
        removedRowCount := removedRowCount + 1;
      }
    }

    /** One full row `i` of `_remove_filled`: row `i` gets a new empty list, then row `j` is
        set to row `j - 1` for `j` from `i - 1` down to 1. */
    method ShiftRows(i: nat)
      requires WellFormed(grid) && SharesOnlyTop(grid) && 1 <= i < |grid|
      modifies this`grid
      ensures WellFormed(grid) && SharesOnlyTop(grid)
      ensures View() == ShiftAsWritten(old(View()), i, BlankRow())
    {
      ghost var before := grid;
      var blank := new Cell[ColumnsCount](_ => Empty);
      assert blank[..] == BlankCells();
      grid := grid[i := blank];
      for j := i downto 1
        invariant |grid| == |before| && grid[i] == blank && blank[..] == BlankCells()
        invariant forall m :: j <= m < i ==> grid[m] == before[m - 1]
        invariant forall m :: 0 <= m < j || i < m < |grid| ==> grid[m] == before[m]
      {
        grid := grid[j := grid[j - 1]];
      }
      assert grid == ShiftAsWritten(before, i, blank);
      ViewOfShift(before, i, blank);
      ShiftKeepsSharesOnlyTop(before, i, blank);
    }
  
    /** The shared body of the five commands: nothing happens while the game is paused;
        otherwise the piece makes the collision-checked move by `delta` and `deltaRotation`. */
    method Command(paused: bool, delta: Point, deltaRotation: int)
      requires Valid() && delta.y >= 0
      modifies currentBlock
      ensures Valid()
      ensures currentBlock.allRotations == old(currentBlock.allRotations)
      ensures currentBlock.color == old(currentBlock.color)
      ensures paused ==> unchanged(currentBlock)
      ensures !paused ==>
        MoveOutcome(grid, currentBlock.allRotations, old(currentBlock.rotationIndex), old(currentBlock.position),
                    delta, deltaRotation, currentBlock.rotationIndex, currentBlock.position)
    {
      if !paused {
        var moved := currentBlock.Move(grid, delta, deltaRotation);
        if moved {
          FitsInBounds(grid, currentBlock.allRotations[currentBlock.rotationIndex], currentBlock.position);
        } else {
          assert currentBlock.Cells() == old(currentBlock.Cells());
        }
      }
    }

    /** `move_down`: one row down. */
    method MoveDown(paused: bool)
      requires Valid()
      modifies currentBlock
      ensures Valid()
      ensures currentBlock.allRotations == old(currentBlock.allRotations)
      ensures currentBlock.color == old(currentBlock.color)
      ensures paused ==> unchanged(currentBlock)
      ensures !paused ==>
        MoveOutcome(grid, currentBlock.allRotations, old(currentBlock.rotationIndex), old(currentBlock.position),
                    Point(0, 1), 0, currentBlock.rotationIndex, currentBlock.position)
    {
      Command(paused, Point(0, 1), 0);
    }

    /** `move_left`: one column to the left. */
    method MoveLeft(paused: bool)
      requires Valid()
      modifies currentBlock
      ensures Valid()
      ensures currentBlock.allRotations == old(currentBlock.allRotations)
      ensures currentBlock.color == old(currentBlock.color)
      ensures paused ==> unchanged(currentBlock)
      ensures !paused ==>
        MoveOutcome(grid, currentBlock.allRotations, old(currentBlock.rotationIndex), old(currentBlock.position),
                    Point(-1, 0), 0, currentBlock.rotationIndex, currentBlock.position)
    {
      Command(paused, Point(-1, 0), 0);
    }

    /** `move_right`: one column to the right. */
    method MoveRight(paused: bool)
      requires Valid()
      modifies currentBlock
      ensures Valid()
      ensures currentBlock.allRotations == old(currentBlock.allRotations)
      ensures currentBlock.color == old(currentBlock.color)
      ensures paused ==> unchanged(currentBlock)
      ensures !paused ==>
        MoveOutcome(grid, currentBlock.allRotations, old(currentBlock.rotationIndex), old(currentBlock.position),
                    Point(1, 0), 0, currentBlock.rotationIndex, currentBlock.position)
    {
      Command(paused, Point(1, 0), 0);
    }

    /** `rotate_clockwise`: the next rotation state, in place. */
    method RotateClockwise(paused: bool)
      requires Valid()
      modifies currentBlock
      ensures Valid()
      ensures currentBlock.allRotations == old(currentBlock.allRotations)
      ensures currentBlock.color == old(currentBlock.color)
      ensures paused ==> unchanged(currentBlock)
      ensures !paused ==>
        MoveOutcome(grid, currentBlock.allRotations, old(currentBlock.rotationIndex), old(currentBlock.position),
                    Point(0, 0), 1, currentBlock.rotationIndex, currentBlock.position)
    {
      Command(paused, Point(0, 0), 1);
    }

    /** `rotate_counterclockwise`: the previous rotation state, in place. */
    method RotateCounterclockwise(paused: bool)
      requires Valid()
      modifies currentBlock
      ensures Valid()
      ensures currentBlock.allRotations == old(currentBlock.allRotations)
      ensures currentBlock.color == old(currentBlock.color)
      ensures paused ==> unchanged(currentBlock)
      ensures !paused ==>
        MoveOutcome(grid, currentBlock.allRotations, old(currentBlock.rotationIndex), old(currentBlock.position),
                    Point(0, 0), -1, currentBlock.rotationIndex, currentBlock.position)
    {
      Command(paused, Point(0, 0), -1);
    }
  }

  /** A turn that succeeds, followed by the opposite turn, gives back the rotation index and
      the anchor the piece started from, whichever direction comes first: the index
      arithmetic `(index + deltaRotation) % len` wraps both ways. */
  lemma TurnsCancel(grid: seq<array<Cell>>, states: seq<seq<Point>>, index: nat, position: Point,
                    deltaRotation: int, index1: nat, position1: Point, index2: nat, position2: Point)
    requires WellFormed(grid) && Shape(states) && index < |states| && position.y >= 1
    requires deltaRotation == 1 || deltaRotation == -1
    requires Fits(grid, states[index], position)
    requires Fits(grid, states[(index + deltaRotation) % |states|], position)
    requires MoveOutcome(grid, states, index, position, Point(0, 0), deltaRotation, index1, position1)
    requires MoveOutcome(grid, states, index1, position1, Point(0, 0), -deltaRotation, index2, position2)
    ensures index1 == (index + deltaRotation) % |states| && position1 == position
    ensures index2 == index && position2 == position
  {
    var count := |states|;
    TurnRemainders(count, index + 1);
    TurnRemainders(count, index - 1);
    TurnRemainders(count, index);
    var target := (index + deltaRotation) % count;
    TurnRemainders(count, target - deltaRotation);
    assert Add(position, Point(0, 0)) == position;
    assert (target - deltaRotation) % count == index;
  }

  /** A turn on the one-state square never changes the rotation index, on the two-state long
      piece both directions lead to the same index, and a turn never moves the anchor. */
  lemma TurnsOnSmallTables(grid: seq<array<Cell>>, states: seq<seq<Point>>, index: nat, position: Point,
                           forward: nat, forwardPosition: Point, backward: nat, backwardPosition: Point)
    requires WellFormed(grid) && Shape(states) && index < |states| <= 2 && position.y >= 1
    requires MoveOutcome(grid, states, index, position, Point(0, 0), 1, forward, forwardPosition)
    requires MoveOutcome(grid, states, index, position, Point(0, 0), -1, backward, backwardPosition)
    ensures forward == backward && forwardPosition == position && backwardPosition == position
    ensures |states| == 1 ==> forward == index
  {
  }
}
