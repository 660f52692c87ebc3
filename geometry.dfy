/** Piece geometry: block offsets, the rotation maps and the table of the six shapes. */
module Geometry {

  /** A board point or a block offset: column `x` and row `y` (row 0 is the top row). */
  datatype Point = Point(x: int, y: int)

  function Add(p: Point, q: Point): Point {
    Point(p.x + q.x, p.y + q.y)
  }

  /** The three maps applied by `rotations`: (x,y)->(-y,x), (x,y)->(-x,-y) and (x,y)->(y,-x). */
  function QuarterTurn(p: Point): Point { Point(-p.y, p.x) }
  function HalfTurn(p: Point): Point { Point(-p.x, -p.y) }
  function ThreeQuarterTurn(p: Point): Point { Point(p.y, -p.x) }

  /** `list(map(f, points))` */
  function MapPoints(f: Point -> Point, points: seq<Point>): seq<Point> {
    seq(|points|, k requires 0 <= k < |points| => f(points[k]))
  }

  /** The four rotation states built from a canonical offset list. */
  function Rotations(points: seq<Point>): seq<seq<Point>> {
    [points, MapPoints(QuarterTurn, points), MapPoints(HalfTurn, points), MapPoints(ThreeQuarterTurn, points)]
  }

  /** The table of shapes: square (1 state), long (2 states), L, J, S and Z (4 states each). */
  const Square: seq<seq<Point>> := [[Point(0, 0), Point(1, 0), Point(0, 1), Point(1, 1)]]
  const Long: seq<seq<Point>> :=
    [[Point(0, 0), Point(-1, 0), Point(1, 0), Point(2, 0)],
     [Point(0, 0), Point(0, -1), Point(0, 1), Point(0, 2)]]
  const LShape: seq<Point> := [Point(0, 0), Point(0, -1), Point(0, 1), Point(1, 1)]
  const JShape: seq<Point> := [Point(0, 0), Point(0, -1), Point(0, 1), Point(-1, 1)]
  const SShape: seq<Point> := [Point(0, 0), Point(-1, 0), Point(0, -1), Point(1, -1)]
  const ZShape: seq<Point> := [Point(0, 0), Point(1, 0), Point(0, -1), Point(-1, -1)]

  function AllPieces(): seq<seq<seq<Point>>> {
    [Square, Long, Rotations(LShape), Rotations(JShape), Rotations(SShape), Rotations(ZShape)]
  }

  /** An offset the board can always accommodate below a spawn anchor: both deltas in [-1, 2]. */
  predicate SmallOffset(p: Point) {
    -1 <= p.x <= 2 && -1 <= p.y <= 2
  }

  /** A well-formed rotation table: at least one state, every state four small offsets. */
  predicate Shape(states: seq<seq<Point>>) {
    |states| >= 1 &&
    forall s :: 0 <= s < |states| ==>
      |states[s]| == 4 && forall k :: 0 <= k < 4 ==> SmallOffset(states[s][k])
  }

  /** `rotations(p)` has exactly four states, the first is `p`, and each has `p`'s length. */
  lemma RotationsShape(points: seq<Point>)
    ensures |Rotations(points)| == 4 && Rotations(points)[0] == points
    ensures forall s :: 0 <= s < 4 ==> |Rotations(points)[s]| == |points|
  {
  }

  /** Two quarter turns make a half turn, list by list. */
  lemma QuarterAfterQuarter(points: seq<Point>)
    ensures MapPoints(QuarterTurn, MapPoints(QuarterTurn, points)) == MapPoints(HalfTurn, points)
  {
    var lhs, rhs := MapPoints(QuarterTurn, MapPoints(QuarterTurn, points)), MapPoints(HalfTurn, points);
    forall k | 0 <= k < |points| ensures lhs[k] == rhs[k] {
      assert lhs[k] == QuarterTurn(QuarterTurn(points[k])) && rhs[k] == HalfTurn(points[k]);
    }
  }

  /** A quarter turn after a half turn makes a three-quarter turn, list by list. */
  lemma QuarterAfterHalf(points: seq<Point>)
    ensures MapPoints(QuarterTurn, MapPoints(HalfTurn, points)) == MapPoints(ThreeQuarterTurn, points)
  {
    var lhs, rhs := MapPoints(QuarterTurn, MapPoints(HalfTurn, points)), MapPoints(ThreeQuarterTurn, points);
    forall k | 0 <= k < |points| ensures lhs[k] == rhs[k] {
      assert lhs[k] == QuarterTurn(HalfTurn(points[k])) && rhs[k] == ThreeQuarterTurn(points[k]);
    }
  }

  /** A quarter turn after a three-quarter turn gives back the list. */
  lemma QuarterAfterThreeQuarters(points: seq<Point>)
    ensures MapPoints(QuarterTurn, MapPoints(ThreeQuarterTurn, points)) == points
  {
    var back := MapPoints(QuarterTurn, MapPoints(ThreeQuarterTurn, points));
    forall k | 0 <= k < |points| ensures back[k] == points[k] {
      assert back[k] == QuarterTurn(ThreeQuarterTurn(points[k]));
    }
  }

  /** Rotation closure: each state is the quarter turn of the previous one, and a quarter turn
      of the last state gives back the canonical offsets. */
  lemma RotationsClosed(points: seq<Point>)
    ensures Rotations(points)[1] == MapPoints(QuarterTurn, Rotations(points)[0])
    ensures Rotations(points)[2] == MapPoints(QuarterTurn, Rotations(points)[1])
    ensures Rotations(points)[3] == MapPoints(QuarterTurn, Rotations(points)[2])
    ensures Rotations(points)[0] == MapPoints(QuarterTurn, Rotations(points)[3])
  {
    QuarterAfterQuarter(points);
    QuarterAfterHalf(points);
    QuarterAfterThreeQuarters(points);
  }

  /** The long piece's vertical state is the quarter turn of its horizontal one. */
  lemma LongStatesRelated()
    ensures Long[1] == MapPoints(QuarterTurn, Long[0])
  {
    var turned := MapPoints(QuarterTurn, Long[0]);
    forall k | 0 <= k < 4 ensures turned[k] == Long[1][k] {
      assert turned[k] == QuarterTurn(Long[0][k]);
    }
  }

  /** The table holds six shapes with 1, 2, 4, 4, 4 and 4 states, every state of four offsets. */
  lemma AllPiecesCounts()
    ensures |AllPieces()| == 6
    ensures |AllPieces()[0]| == 1 && |AllPieces()[1]| == 2
    ensures forall k :: 2 <= k < 6 ==> |AllPieces()[k]| == 4
    ensures forall k, s :: 0 <= k < 6 && 0 <= s < |AllPieces()[k]| ==> |AllPieces()[k][s]| == 4
  {
    RotationsShape(LShape);
    RotationsShape(JShape);
    RotationsShape(SShape);
    RotationsShape(ZShape);
  }

  /** Every offset of the four-state shapes lies in [-1, 1] x [-1, 1]. */
  lemma RotationsSmall(points: seq<Point>)
    requires |points| == 4
    requires forall k :: 0 <= k < 4 ==> -1 <= points[k].x <= 1 && -1 <= points[k].y <= 1
    ensures Shape(Rotations(points))
  {
    var states := Rotations(points);
    forall s, k | 0 <= s < 4 && 0 <= k < 4 ensures SmallOffset(states[s][k]) {
      var p := points[k];
      assert states[s][k] in {p, QuarterTurn(p), HalfTurn(p), ThreeQuarterTurn(p)};
    }
  }

  /** Every offset in the table has both deltas in [-1, 2], so every entry is a `Shape`. */
  lemma AllPiecesShaped()
    ensures forall k :: 0 <= k < |AllPieces()| ==> Shape(AllPieces()[k])
  {
    RotationsSmall(LShape);
    RotationsSmall(JShape);
    RotationsSmall(SShape);
    RotationsSmall(ZShape);
  }
}
