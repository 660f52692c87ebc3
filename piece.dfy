/** The active piece: its rotation table, rotation index, anchor position and colour, and the
    one collision-checked move through which every translation and rotation goes. */
module Piece {
  import opened Geometry
  import opened Grid

  const AllColors: seq<string> :=
    ["DarkGreen", "dark blue", "blue", "dark red", "gold2", "Purple3", "OrangeRed2", "LightSkyBlue"]

  /** Where every new piece appears. */
  const SpawnPosition: Point := Point(4, 1)

  /** The board points covered by `offsets` placed at `anchor`. */
  function Covered(offsets: seq<Point>, anchor: Point): (cells: seq<Point>)
    ensures |cells| == |offsets|
  {
    seq(|offsets|, k requires 0 <= k < |offsets| => Add(anchor, offsets[k]))
  }

  /** All the points `offsets` would cover at `anchor` are free on `grid`. */
  ghost predicate Fits(grid: seq<array<Cell>>, offsets: seq<Point>, anchor: Point)
    reads grid
    requires WellFormed(grid) && anchor.y >= 1
    requires forall k :: 0 <= k < |offsets| ==> -1 <= offsets[k].y
  {
    forall k :: 0 <= k < |offsets| ==> EmptyAt(grid, Add(anchor, offsets[k]))
  }

  /** The loop of `move`: every target point is asked of `empty_at`, and the answer is
      false when any of them is blocked. */
  method Free(grid: seq<array<Cell>>, offsets: seq<Point>, anchor: Point) returns (free: bool)
    requires WellFormed(grid) && anchor.y >= 1
    requires forall k :: 0 <= k < |offsets| ==> -1 <= offsets[k].y
    ensures free == Fits(grid, offsets, anchor)
  {
    free := true;
    for k := 0 to |offsets|
      invariant free == forall m :: 0 <= m < k ==> EmptyAt(grid, Add(anchor, offsets[m]))
    {
      if !EmptyAt(grid, Add(anchor, offsets[k])) {
        free := false;
      }
    }
  }

  /** A piece that fits is inside the board: no free point lies outside it. */
  lemma FitsInBounds(grid: seq<array<Cell>>, offsets: seq<Point>, anchor: Point)
    requires WellFormed(grid) && anchor.y >= 1
    requires forall k :: 0 <= k < |offsets| ==> -1 <= offsets[k].y
    requires Fits(grid, offsets, anchor)
    ensures forall k :: 0 <= k < |offsets| ==> InBounds(Covered(offsets, anchor)[k])
  {
    forall k | 0 <= k < |offsets| ensures InBounds(Covered(offsets, anchor)[k]) {
      EmptyAtMeaning(grid, Add(anchor, offsets[k]));
    }
  }

  /** Every state of a well-formed table fits inside the board at the spawn anchor, whatever
      the grid holds there. */
  lemma SpawnInBounds(states: seq<seq<Point>>)
    requires Shape(states)
    ensures forall k :: 0 <= k < |states[0]| ==> InBounds(Covered(states[0], SpawnPosition)[k])
  {
  }

  /** Euclidean remainder on the three values a turn can produce from an index in range. */
  lemma TurnRemainders(count: nat, x: int)
    requires -1 <= x <= count && count >= 1
    ensures 0 <= x < count ==> x % count == x
    ensures x == count ==> x % count == 0
    ensures x == -1 ==> x % count == count - 1
  {
  }

  class TetrisPiece {
    var allRotations: seq<seq<Point>>
    var rotationIndex: nat
    var position: Point
    var color: string

    /** The rotation table is well formed, the index is in range, and the anchor is on row 1 or
        below, so no block of the piece is ever above row 0. */
    ghost predicate Valid()
      reads this
    {
      Shape(allRotations) && rotationIndex < |allRotations| && position.y >= 1
    }

    /** The board points the piece covers now. */
    ghost function Cells(): seq<Point>
      reads this
      requires Valid()
    {
      Covered(allRotations[rotationIndex], position)
    }

    /** A new piece with the given rotation table and colour, at the spawn anchor, in state 0. */
    constructor (rotation: seq<seq<Point>>, color: string)
      ensures allRotations == rotation && rotationIndex == 0
      ensures position == SpawnPosition && this.color == color
    {
      allRotations := rotation;
      rotationIndex := 0;
      this.color := color;
      position := SpawnPosition;
    }

    /** Try to move by `delta` and turn by `deltaRotation` states. The move happens, and
        `moved` is true, iff all four target points are free; otherwise nothing changes. */
    method Move(grid: seq<array<Cell>>, delta: Point, deltaRotation: int) returns (moved: bool)
      requires Valid() && WellFormed(grid) && delta.y >= 0
      modifies this
      ensures Valid()
      ensures allRotations == old(allRotations) && color == old(color)
      ensures moved == Fits(grid, allRotations[(old(rotationIndex) + deltaRotation) % |allRotations|],
                            Add(old(position), delta))
      ensures moved ==> position == Add(old(position), delta) &&
                        rotationIndex == (old(rotationIndex) + deltaRotation) % |allRotations|
      ensures !moved ==> position == old(position) && rotationIndex == old(rotationIndex)
    {
      var index := (rotationIndex + deltaRotation) % |allRotations|;
      var potential := allRotations[index];
      var target := Add(position, delta);
      assert |potential| == 4 && forall k :: 0 <= k < 4 ==> SmallOffset(potential[k]);
      moved := Free(grid, potential, target);
      if moved {
        position := target;
        rotationIndex := index;
      }
    }

    /** Drop by one row: on success only the row of the anchor grows by one. */
    method DropOne(grid: seq<array<Cell>>) returns (moved: bool)
      requires Valid() && WellFormed(grid)
      modifies this
      ensures Valid()
      ensures allRotations == old(allRotations) && color == old(color)
      ensures rotationIndex == old(rotationIndex)
      ensures moved == Fits(grid, allRotations[rotationIndex], Add(old(position), Point(0, 1)))
      ensures position == if moved then Point(old(position).x, old(position).y + 1) else old(position)
    {
      TurnRemainders(|allRotations|, rotationIndex);
      moved := Move(grid, Point(0, 1), 0);
    }
  }

  /** `generate_piece`: a new piece of shape `kind` and colour `colorIndex`, the two random
      choices of the source. */
  method GeneratePiece(kind: nat, colorIndex: nat) returns (piece: TetrisPiece)
    requires kind < |AllPieces()| && colorIndex < |AllColors|
    ensures fresh(piece) && piece.Valid()
    ensures piece.allRotations == AllPieces()[kind] && piece.color == AllColors[colorIndex]
    ensures piece.rotationIndex == 0 && piece.position == SpawnPosition
  {
    AllPiecesShaped();
    piece := new TetrisPiece(AllPieces()[kind], AllColors[colorIndex]);
  }
}
