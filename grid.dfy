/** The board's grid: cells, dimensions, the bounds-and-emptiness test, the full-row test, and
    the value-level view of the grid used to specify locking and the line-clear pass.

    The grid is a list of row lists. Rows are objects, so two rows of the grid can be the same
    list; the view records, for every row, its cells and whether its list is the one of row 0. */
module Grid {
  import opened Geometry

  /** A grid cell: `None`, or the block drawn for a locked piece (identified by its tag). */
  datatype Cell = Empty | Occupied(tag: string)

  const ColumnsCount: nat := 10
  const RowsCount: nat := 27

  predicate InBounds(p: Point) {
    0 <= p.x < ColumnsCount && 0 <= p.y < RowsCount
  }

  /** The specification of `all_filled`: no element of the row is empty. */
  predicate Filled(row: seq<Cell>) {
    forall c :: 0 <= c < |row| ==> row[c].Occupied?
  }

  /** `all_filled`: the early-return scan of one row. */
  method AllFilled(row: array<Cell>) returns (filled: bool)
    ensures filled == Filled(row[..])
  {
    for c := 0 to row.Length
      invariant forall k :: 0 <= k < c ==> row[k].Occupied?
    {
      if row[c].Empty? {
        return false;
      }
    }
    return true;
  }

  /** Some cell of the row is occupied (the test `is_game_over` applies to row 0). */
  predicate AnyOccupied(row: seq<Cell>) {
    exists c :: 0 <= c < |row| && row[c].Occupied?
  }

  /** The grid has `RowsCount` rows of `ColumnsCount` cells each. */
  predicate WellFormed(grid: seq<array<Cell>>) {
    |grid| == RowsCount && forall r :: 0 <= r < |grid| ==> grid[r].Length == ColumnsCount
  }

  /** `empty_at`: a point in a column outside the board or in a row below the bottom row is
      blocked; any other point is free iff its cell is empty. The source does not reject rows
      above the top; the model asks that the row be non-negative, and the piece invariant
      shows no caller ever asks about such a row. */
  function EmptyAt(grid: seq<array<Cell>>, p: Point): bool
    reads grid
    requires WellFormed(grid) && p.y >= 0
  {
    if p.x < 0 || p.x >= ColumnsCount || p.y >= RowsCount then false
    else grid[p.y][p.x].Empty?
  }

  lemma EmptyAtMeaning(grid: seq<array<Cell>>, p: Point)
    requires WellFormed(grid) && p.y >= 0
    ensures (p.x < 0 || p.x >= ColumnsCount || p.y >= RowsCount) ==> !EmptyAt(grid, p)
    ensures InBounds(p) ==> (EmptyAt(grid, p) <==> grid[p.y][p.x] == Empty)
    ensures EmptyAt(grid, p) ==> InBounds(p)
  {
  }

  /** Two entries of `s` are the same only when they are also the same as entry 0. */
  predicate SharesOnlyTop<T(==)>(s: seq<T>) {
    forall a, b :: 0 <= a < b < |s| && s[a] == s[b] ==> s[a] == s[0]
  }

  /** Every entry of `s` is a different object. */
  predicate Distinct<T(==)>(s: seq<T>) {
    forall a, b :: 0 <= a < b < |s| ==> s[a] != s[b]
  }

  /** One row of the view: its cells and whether its list is row 0's list. */
  datatype Row = Row(cells: seq<Cell>, sharesTop: bool)

  /** The view of a grid of row lists. */
  ghost function ViewOf(grid: seq<array<Cell>>): seq<Row>
    reads grid
    requires |grid| > 0
  {
    seq(|grid|, r reads grid requires 0 <= r < |grid| => Row(grid[r][..], grid[r] == grid[0]))
  }

  /** A view is consistent when it has the grid's dimensions, row 0 shares its own list, and
      rows sharing row 0's list hold row 0's cells. */
  ghost predicate Consistent(v: seq<Row>) {
    |v| == RowsCount && v[0].sharesTop &&
    (forall r :: 0 <= r < |v| ==> |v[r].cells| == ColumnsCount) &&
    (forall r :: 0 <= r < |v| && v[r].sharesTop ==> v[r].cells == v[0].cells)
  }

  /** No row other than row 0 shares row 0's list (so, with `SharesOnlyTop`, all rows are
      different lists). */
  ghost predicate Unshared(v: seq<Row>) {
    forall r :: 0 < r < |v| ==> !v[r].sharesTop
  }

  lemma ViewOfConsistent(grid: seq<array<Cell>>)
    requires WellFormed(grid)
    ensures Consistent(ViewOf(grid))
  {
  }

  /** A fresh row of empty cells: `[None for x in row]`. */
  function BlankCells(): (cells: seq<Cell>)
    ensures |cells| == ColumnsCount && !Filled(cells)
  {
    var cells := seq(ColumnsCount, _ => Empty);
    assert cells[0].Empty?;
    cells
  }

  function BlankRow(): Row {
    Row(BlankCells(), false)
  }

  /** The view of a new grid: every row empty and a list of its own. */
  function EmptyView(): seq<Row> {
    seq(RowsCount, r => Row(BlankCells(), r == 0))
  }

  lemma EmptyViewConsistent()
    ensures Consistent(EmptyView()) && Unshared(EmptyView()) && !AnyOccupied(EmptyView()[0].cells)
  {
  }

  /** Storing one block at `p`: the write goes to the list of row `p.y`, so every row that
      shares that list sees it too. */
  ghost function Write(v: seq<Row>, p: Point, tag: string): (w: seq<Row>)
    requires Consistent(v) && InBounds(p)
    ensures Consistent(w)
  {
    seq(|v|, r requires 0 <= r < |v| =>
      if r == p.y || (v[p.y].sharesTop && v[r].sharesTop)
      then Row(v[r].cells[p.x := Occupied(tag)], v[r].sharesTop)
      else v[r])
  }

  /** Storing the blocks at `points`, one after the other. */
  ghost function Place(v: seq<Row>, points: seq<Point>, tag: string): (w: seq<Row>)
    requires Consistent(v) && forall k :: 0 <= k < |points| ==> InBounds(points[k])
    ensures Consistent(w)
  {
    if points == [] then v
    else Write(Place(v, points[..|points| - 1], tag), points[|points| - 1], tag)
  }

  /** Locking into a view where no two rows share a list writes exactly the given points and
      leaves every other cell as it was. */
  lemma {:induction false} PlaceUnshared(v: seq<Row>, points: seq<Point>, tag: string)
    requires Consistent(v) && Unshared(v) && forall k :: 0 <= k < |points| ==> InBounds(points[k])
    ensures Unshared(Place(v, points, tag))
    ensures forall r, c :: 0 <= r < |v| && 0 <= c < ColumnsCount ==>
      Place(v, points, tag)[r].cells[c] ==
        if Point(c, r) in points then Occupied(tag) else v[r].cells[c]
  {
    if points != [] {
      var front := points[..|points| - 1];
      PlaceUnshared(v, front, tag);
      assert points == front + [points[|points| - 1]];
    }
  }

  /** The effect, on any sequence of rows, of one full row `i` in the clearing loop as the
      code writes it: entry `i` becomes `blank`, entry `j` takes old entry `j - 1` for
      `1 <= j < i`, and every other entry is kept (entry 0 included). */
  function ShiftAsWritten<T>(s: seq<T>, i: nat, blank: T): seq<T>
    requires 1 <= i < |s|
  {
    seq(|s|, j requires 0 <= j < |s| => if 1 <= j < i then s[j - 1] else if j == i then blank else s[j])
  }

  datatype Cleared = Cleared(rows: seq<Row>, count: nat)

  /** The scan of `_remove_filled` from row `i` on: every full row is shifted away as written,
      and `count` is the number of rows cleared. */
  function ClearFrom(v: seq<Row>, i: nat): (r: Cleared)
    requires 1 <= i <= |v|
    ensures |r.rows| == |v| && r.count <= |v| - i
    ensures |v| > 0 ==> r.rows[0] == v[0]
    decreases |v| - i
  {
    if i == |v| then Cleared(v, 0)
    else if Filled(v[i].cells) then
      var rest := ClearFrom(ShiftAsWritten(v, i, BlankRow()), i + 1);
      Cleared(rest.rows, rest.count + 1)
    else ClearFrom(v, i + 1)
  }

  /** One step of the scan. */
  lemma ClearFromStep(v: seq<Row>, i: nat)
    requires 1 <= i < |v|
    ensures ClearFrom(v, i) ==
      if Filled(v[i].cells)
      then var rest := ClearFrom(ShiftAsWritten(v, i, BlankRow()), i + 1); Cleared(rest.rows, rest.count + 1)
      else ClearFrom(v, i + 1)
  {
  }

  /** Where a scan of the clearing pass over `goal` stands before row `i` of `v`, with
      `cleared` rows counted so far: the rest of the pass clears the remaining rows. */
  ghost predicate Scanned(v: seq<Row>, goal: Cleared, cleared: nat, i: nat)
    requires 1 <= i <= |v|
  {
    cleared <= goal.count && ClearFrom(v, i) == Cleared(goal.rows, goal.count - cleared)
  }

  /** The scan's invariant moves on one row: what is left to clear from row `i + 1` of the
      new rows is what was left from row `i` of the old ones, less the row just cleared. */
  lemma ClearFromNext(v: seq<Row>, i: nat, v': seq<Row>, full: bool, goal: Cleared, cleared: nat)
    requires 1 <= i < |v| && full == Filled(v[i].cells)
    requires v' == if full then ShiftAsWritten(v, i, BlankRow()) else v
    requires Scanned(v, goal, cleared, i)
    ensures |v'| == |v| && Scanned(v', goal, cleared + if full then 1 else 0, i + 1)
  {
    ClearFromStep(v, i);
  }

  lemma ShiftConsistent(v: seq<Row>, i: nat)
    requires Consistent(v) && 1 <= i < |v|
    ensures Consistent(ShiftAsWritten(v, i, BlankRow()))
  {
  }

  /** The clearing pass keeps the view consistent. */
  lemma {:induction false} ClearFromConsistent(v: seq<Row>, i: nat)
    requires Consistent(v) && 1 <= i <= |v|
    ensures Consistent(ClearFrom(v, i).rows)
    decreases |v| - i
  {
    if i < |v| {
      if Filled(v[i].cells) {
        ShiftConsistent(v, i);
        ClearFromConsistent(ShiftAsWritten(v, i, BlankRow()), i + 1);
      } else {
        ClearFromConsistent(v, i + 1);
      }
    }
  }

  /** The view of the grid after the shift of one full row as written, when the new row `i`
      is a blank list that was not in the grid. */
  lemma ViewOfShift(grid: seq<array<Cell>>, i: nat, blank: array<Cell>)
    requires WellFormed(grid) && 1 <= i < |grid| && blank !in grid
    requires blank[..] == BlankCells()
    ensures ViewOf(ShiftAsWritten(grid, i, blank)) == ShiftAsWritten(ViewOf(grid), i, BlankRow())
  {
    var g := ShiftAsWritten(grid, i, blank);
    assert g[0] == grid[0];
  }

  /** The shift as written keeps `SharesOnlyTop` when the new row is a new list. */
  lemma ShiftKeepsSharesOnlyTop<T>(s: seq<T>, i: nat, blank: T)
    requires SharesOnlyTop(s) && 1 <= i < |s| && blank !in s
    ensures SharesOnlyTop(ShiftAsWritten(s, i, blank))
  {
    var t := ShiftAsWritten(s, i, blank);
    forall a, b | 0 <= a < b < |t| && t[a] == t[b] ensures t[a] == t[0] {
      if a == i || b == i {
        assert false;
      } else {
        var a', b' := if 1 <= a < i then a - 1 else a, if 1 <= b < i then b - 1 else b;
        assert t[a] == s[a'] && t[b] == s[b'];
      }
    }
  }

  /** Row 1 shares row 0's list once a row below it has been cleared: the shift as written
      copies entry 0 into entry 1 and keeps entry 0. */
  lemma ShiftAsWrittenAliasesTop<T>(s: seq<T>, i: nat, blank: T)
    requires 2 <= i < |s|
    ensures ShiftAsWritten(s, i, blank)[1] == s[0] == ShiftAsWritten(s, i, blank)[0]
  {
  }

  /** From row 2 on, a pass that clears anything leaves row 1 sharing row 0's list, and a
      row 1 that already shares it keeps sharing it. */
  lemma {:induction false} ClearFromSharesRowOne(v: seq<Row>, i: nat)
    requires 2 <= i <= |v| && v[0].sharesTop
    requires v[1].sharesTop || ClearFrom(v, i).count > 0
    ensures ClearFrom(v, i).rows[1].sharesTop
    decreases |v| - i
  {
    if i < |v| {
      if Filled(v[i].cells) {
        var w := ShiftAsWritten(v, i, BlankRow());
        assert w[1] == v[0] && w[0] == v[0];
        ClearFromSharesRowOne(w, i + 1);
      } else {
        ClearFromSharesRowOne(v, i + 1);
      }
    }
  }

  /** A block stored into a row that shares row 0's list lands in row 0 as well, so the next
      tick finds the game over. */
  lemma WriteSharedReachesTop(v: seq<Row>, p: Point, tag: string)
    requires Consistent(v) && InBounds(p) && v[p.y].sharesTop
    ensures Write(v, p, tag)[0].cells[p.x] == Occupied(tag)
  {
  }

  /** The shift the code evidently intends: entry `j` takes old entry `j - 1` for
      `1 <= j <= i`, so the full entry `i` is removed, and entry 0 becomes `blank`. */
  function ShiftIntended<T>(s: seq<T>, i: nat, blank: T): seq<T>
    requires i < |s|
  {
    seq(|s|, j requires 0 <= j < |s| => if j == 0 then blank else if j <= i then s[j - 1] else s[j])
  }

  /** With a new blank list for row 0, the intended shift keeps all rows different lists. */
  lemma ShiftIntendedKeepsDistinct<T>(s: seq<T>, i: nat, blank: T)
    requires Distinct(s) && i < |s| && blank !in s
    ensures Distinct(ShiftIntended(s, i, blank))
  {
    var t := ShiftIntended(s, i, blank);
    forall a, b | 0 <= a < b < |t| ensures t[a] != t[b] {
      var b' := if b <= i then b - 1 else b;
      assert t[b] == s[b'];
      if a > 0 {
        var a' := if a <= i then a - 1 else a;
        assert t[a] == s[a'] && a' < b';
      }
    }
  }

  /** The intended pass over row contents, from row `i` on. */
  function ClearIntendedFrom(rows: seq<seq<Cell>>, i: nat): (r: seq<seq<Cell>>)
    requires 1 <= i <= |rows|
    decreases |rows| - i
  {
    if i == |rows| then rows
    else if Filled(rows[i]) then ClearIntendedFrom(ShiftIntended(rows, i, BlankCells()), i + 1)
    else ClearIntendedFrom(rows, i + 1)
  }

  /** The rows of `rows` that are not full, in order. */
  function Kept(rows: seq<seq<Cell>>): seq<seq<Cell>> {
    if rows == [] then []
    else (if Filled(rows[0]) then [] else [rows[0]]) + Kept(rows[1..])
  }

  function CountFilled(rows: seq<seq<Cell>>): nat {
    if rows == [] then 0 else (if Filled(rows[0]) then 1 else 0) + CountFilled(rows[1..])
  }

  function Blanks(k: nat): seq<seq<Cell>> {
    seq(k, _ => BlankCells())
  }

  /** The intended pass compacts the stack: one blank row on top per full row removed, then
      the rows above the scan in place, then the rows that were not full, in order, with none
      skipped or repeated. */
  lemma {:induction false} ClearIntendedCompacts(rows: seq<seq<Cell>>, i: nat)
    requires 1 <= i <= |rows|
    ensures ClearIntendedFrom(rows, i) ==
      Blanks(CountFilled(rows[i..])) + rows[..i] + Kept(rows[i..])
    decreases |rows| - i
  {
    if i == |rows| {
      assert rows[i..] == [];
    } else if Filled(rows[i]) {
      var w := ShiftIntended(rows, i, BlankCells());
      var k, kept := CountFilled(rows[i + 1..]), Kept(rows[i + 1..]);
      calc {
        ClearIntendedFrom(rows, i);
        ClearIntendedFrom(w, i + 1);
        { ClearIntendedCompacts(w, i + 1); }
        Blanks(CountFilled(w[i + 1..])) + w[..i + 1] + Kept(w[i + 1..]);
        { ShiftIntendedSplits(rows, i); }
        Blanks(k) + ([BlankCells()] + rows[..i]) + kept;
        { BlanksGrow(k, rows[..i], kept); }
        Blanks(k + 1) + rows[..i] + kept;
        { TailCounts(rows, i); }
        Blanks(CountFilled(rows[i..])) + rows[..i] + Kept(rows[i..]);
      }
    } else {
      var k, kept := CountFilled(rows[i + 1..]), Kept(rows[i + 1..]);
      calc {
        ClearIntendedFrom(rows, i);
        ClearIntendedFrom(rows, i + 1);
        { ClearIntendedCompacts(rows, i + 1); }
        Blanks(k) + rows[..i + 1] + kept;
        { assert rows[..i + 1] == rows[..i] + [rows[i]]; }
        Blanks(k) + (rows[..i] + [rows[i]]) + kept;
        { KeptMoves(Blanks(k), rows[..i], rows[i], kept); }
        Blanks(k) + rows[..i] + ([rows[i]] + kept);
        { TailCounts(rows, i); }
        Blanks(CountFilled(rows[i..])) + rows[..i] + Kept(rows[i..]);
      }
    }
  }

  /** After the intended shift at `i`, the rows down to `i` are a blank row over the old
      rows above `i`, and the rows below `i` are untouched. */
  lemma ShiftIntendedSplits(rows: seq<seq<Cell>>, i: nat)
    requires 1 <= i < |rows|
    ensures ShiftIntended(rows, i, BlankCells())[..i + 1] == [BlankCells()] + rows[..i]
    ensures ShiftIntended(rows, i, BlankCells())[i + 1..] == rows[i + 1..]
  {
  }

  /** Row `i` adds one to the count of the rows from `i` when it is full, and one row to
      the kept ones otherwise. */
  lemma TailCounts(rows: seq<seq<Cell>>, i: nat)
    requires i < |rows|
    ensures CountFilled(rows[i..]) == CountFilled(rows[i + 1..]) + if Filled(rows[i]) then 1 else 0
    ensures Kept(rows[i..]) == if Filled(rows[i]) then Kept(rows[i + 1..]) else [rows[i]] + Kept(rows[i + 1..])
  {
    assert rows[i..][1..] == rows[i + 1..];
  }

  lemma BlanksGrow(k: nat, above: seq<seq<Cell>>, kept: seq<seq<Cell>>)
    ensures Blanks(k) + ([BlankCells()] + above) + kept == Blanks(k + 1) + above + kept
  {
    assert Blanks(k) + [BlankCells()] == Blanks(k + 1);
  }

  lemma KeptMoves<T>(blanks: seq<T>, above: seq<T>, row: T, kept: seq<T>)
    ensures blanks + (above + [row]) + kept == blanks + above + ([row] + kept)
  {
  }

  /** The cells of every row of a view. */
  function CellsOf(v: seq<Row>): seq<seq<Cell>> {
    seq(|v|, r requires 0 <= r < |v| => v[r].cells)
  }

  /** A grid whose row 2 is full and whose row 1 holds one block: the pass as written clears
      row 2 and loses the block of row 1 (it is overwritten by row 0, and row 1 then shares
      row 0's list), where the intended pass moves it down into row 2. */
  lemma AsWrittenLosesBlock()
    ensures
      var full := seq(ColumnsCount, _ => Occupied("a"));
      var lone := BlankCells()[0 := Occupied("a")];
      var v := [Row(BlankCells(), true), Row(lone, false), Row(full, false)];
      ClearFrom(v, 1) == Cleared([Row(BlankCells(), true), Row(BlankCells(), true), BlankRow()], 1) &&
      ClearIntendedFrom(CellsOf(v), 1) == [BlankCells(), BlankCells(), lone]
  {
    var full := seq(ColumnsCount, _ => Occupied("a"));
    var lone := BlankCells()[0 := Occupied("a")];
    var v := [Row(BlankCells(), true), Row(lone, false), Row(full, false)];
    assert !Filled(lone) by { assert lone[1].Empty?; }
    assert Filled(full);
    var w := ShiftAsWritten(v, 2, BlankRow());
    assert w == [Row(BlankCells(), true), Row(BlankCells(), true), BlankRow()];
    assert ClearFrom(w, 3) == Cleared(w, 0);
    assert ClearFrom(v, 2) == Cleared(w, 1);
    assert ClearFrom(v, 1) == ClearFrom(v, 2);
    var c := CellsOf(v);
    assert c == [BlankCells(), lone, full];
    assert ShiftIntended(c, 2, BlankCells()) == [BlankCells(), BlankCells(), lone];
    assert ClearIntendedFrom(c, 1) == ClearIntendedFrom(c, 2);
  }
}
