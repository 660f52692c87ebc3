/** The game: score, level and drop interval, the scoring rule applied once per cleared row,
    the pause and game-over flags, and the timer tick that drives the board. */
module Game {
  import opened Geometry
  import opened Grid
  import opened Piece
  import opened Board

  /** `500 - int(log10(level) * 300)` for levels 1 to 21, in milliseconds. */
  const IntervalTable: seq<nat> :=
    [500, 410, 357, 320, 291, 267, 247, 230, 214, 200, 188,
     177, 166, 157, 148, 139, 131, 124, 117, 110, 104]

  const MaxLevel: nat := 21

  /** The drop interval of a level. */
  function IntervalFor(level: nat): nat
    requires 1 <= level <= MaxLevel
  {
    IntervalTable[level - 1]
  }

  /** Level 1 drops every 500 ms, every higher level drops strictly faster, and no level drops
      faster than every 104 ms. */
  lemma IntervalsShrink()
    ensures IntervalFor(1) == 500
    ensures forall a, b :: 1 <= a < b <= MaxLevel ==> IntervalFor(b) < IntervalFor(a)
    ensures forall a :: 1 <= a <= MaxLevel ==> 104 <= IntervalFor(a) <= 500
  {
    forall a, b | 1 <= a < b <= MaxLevel ensures IntervalFor(b) < IntervalFor(a) {
      assert forall k :: 0 <= k < |IntervalTable| - 1 ==> IntervalTable[k + 1] < IntervalTable[k];
      DecreasingTable(IntervalTable, a - 1, b - 1);
    }
  }

  /** A sequence that falls at every step falls between any two positions. */
  lemma {:induction false} DecreasingTable(s: seq<nat>, a: nat, b: nat)
    requires forall k :: 0 <= k < |s| - 1 ==> s[k + 1] < s[k]
    requires a < b < |s|
    ensures s[b] < s[a]
    decreases b - a
  {
    if a + 1 < b {
      DecreasingTable(s, a + 1, b);
    }
  }

  /** The three numbers the scoring rule changes. */
  datatype Progress = Progress(score: nat, level: nat, interval: nat)

  /** `scoring(removed)`: 9 plus the current level is added to the score; when the running
      count of removed rows exceeds five times the level and the level is below 21, the level
      goes up by one and the interval is recomputed for it. */
  function ScoreRow(p: Progress, removed: nat): (q: Progress)
    ensures q.score > p.score
  {
    var score := p.score + 9 + p.level;
    if removed > p.level * 5 && p.level < MaxLevel
    then Progress(score, p.level + 1, IntervalFor(p.level + 1))
    else Progress(score, p.level, p.interval)
  }

  /** A progress whose level is in range and whose interval is the one of its level. */
  predicate Synced(p: Progress) {
    1 <= p.level <= MaxLevel && p.interval == IntervalFor(p.level)
  }

  /** One scoring call keeps the interval in step with the level, raises the level by at most
      one and only when the count passes five times the level, and adds 10 to 30 points. */
  lemma ScoreRowKeepsSynced(p: Progress, removed: nat)
    requires Synced(p)
    ensures Synced(ScoreRow(p, removed))
    ensures ScoreRow(p, removed).level == p.level || ScoreRow(p, removed).level == p.level + 1
    ensures ScoreRow(p, removed).level > p.level <==> removed > 5 * p.level && p.level < MaxLevel
    ensures p.score + 10 <= ScoreRow(p, removed).score <= p.score + 30
  {
  }

  /** The scoring calls of one tick, applied in order. */
  function ScoreAll(p: Progress, counts: seq<nat>): (q: Progress)
    ensures q.score >= p.score
  {
    if counts == [] then p
    else ScoreRow(ScoreAll(p, counts[..|counts| - 1]), counts[|counts| - 1])
  }

  /** Over any run of scoring calls the level never falls and stays in range, the interval
      stays the level's (so it never grows), and every call adds at least 10 points. */
  lemma {:induction false} ScoreAllMonotone(p: Progress, counts: seq<nat>)
    requires Synced(p)
    ensures Synced(ScoreAll(p, counts))
    ensures p.level <= ScoreAll(p, counts).level <= p.level + |counts|
    ensures ScoreAll(p, counts).interval <= p.interval
    ensures ScoreAll(p, counts).score >= p.score + 10 * |counts|
  {
    if counts != [] {
      var front := ScoreAll(p, counts[..|counts| - 1]);
      ScoreAllMonotone(p, counts[..|counts| - 1]);
      ScoreRowKeepsSynced(front, counts[|counts| - 1]);
      IntervalsShrink();
    }
  }

  /** The level reached after `removed` rows in one game: one level per five rows (the sixth
      row reaches level 2, the eleventh level 3, ...), at most 21. */
  function LevelFor(removed: nat): (level: nat)
    ensures 1 <= level <= MaxLevel
  {
    if removed == 0 then 1
    else if (removed + 4) / 5 >= MaxLevel then MaxLevel
    else (removed + 4) / 5
  }

  /** The score after `removed` rows in one game: each row adds 9 plus the level the game
      was at before it. */
  function ScoreFor(removed: nat): nat {
    if removed == 0 then 0 else ScoreFor(removed - 1) + 9 + LevelFor(removed - 1)
  }

  /** Score, level and interval of a game in which `removed` rows have been cleared. */
  function Standing(removed: nat): (p: Progress)
    ensures Synced(p)
  {
    Progress(ScoreFor(removed), LevelFor(removed), IntervalFor(LevelFor(removed)))
  }

  /** The scoring rule, fed the running count, moves the standing on by one row. */
  lemma ScoreRowAdvances(removed: nat)
    ensures ScoreRow(Standing(removed), removed + 1) == Standing(removed + 1)
  {
    LevelStep(removed);
  }

  /** The level goes up by one exactly when the row count passes five times the level. */
  lemma LevelStep(removed: nat)
    ensures LevelFor(removed + 1) ==
      if removed + 1 > LevelFor(removed) * 5 && LevelFor(removed) < MaxLevel
      then LevelFor(removed) + 1 else LevelFor(removed)
  {
    var q, q' := (removed + 4) / 5, (removed + 5) / 5;
    assert 5 * q <= removed + 4 < 5 * q + 5;
    assert 5 * q' <= removed + 5 < 5 * q' + 5;
    assert q' == q || q' == q + 1;
    assert q' == q + 1 <==> removed == 5 * q;
  }

  /** However the cleared rows are spread over ticks, the score, level and interval depend only
      on the total number of rows cleared since the game started. */
  lemma ScoreAllAdvances(before: nat, count: nat)
    ensures ScoreAll(Standing(before), ScoringCalls(before, count)) == Standing(before + count)
  {
    forall n: nat ensures ScoreRow(Standing(n), n + 1) == Standing(n + 1) {
      ScoreRowAdvances(n);
    }
    ScoreAllFollows(Standing, before, count);
  }

  /** Scoring calls that each move a standing `f` on by one row move it on by all of them. */
  lemma {:induction false} ScoreAllFollows(f: nat -> Progress, before: nat, count: nat)
    requires forall n: nat :: ScoreRow(f(n), n + 1) == f(n + 1)
    ensures ScoreAll(f(before), ScoringCalls(before, count)) == f(before + count)
  {
    if count > 0 {
      var m := count - 1;
      ScoringCallsStep(before, m);
      ScoreAllFollows(f, before, m);
      ScoreAllLast(f(before), ScoringCalls(before, m), before + m + 1, f(before + m), f(before + m + 1));
    }
  }

  /** The last call is applied last. */
  lemma ScoreAllLast(p: Progress, counts: seq<nat>, last: nat, middle: Progress, end: Progress)
    requires ScoreAll(p, counts) == middle && ScoreRow(middle, last) == end
    ensures ScoreAll(p, counts + [last]) == end
  {
    assert (counts + [last])[..|counts|] == counts;
  }

  /** The scoring calls of a tick that took the count from `before` to `after` bring the
      standing of `before` to the standing of `after`. */
  lemma CatchUp(p: Progress, before: nat, after: nat, calls: seq<nat>)
    requires p == Standing(before) && before <= after
    requires calls == ScoringCalls(before, after - before)
    ensures ScoreAll(p, calls) == Standing(after)
  {
    ScoreAllAdvances(before, after - before);
  }

  /** The level is 1 for the first five rows, reaches 21 at row 101, and never falls. */
  lemma LevelForFacts(removed: nat, more: nat)
    ensures LevelFor(removed) == 1 <==> removed <= 5
    ensures LevelFor(removed) == MaxLevel <==> removed >= 101
    ensures LevelFor(removed) <= LevelFor(removed + more)
  {
  }

  /** Six single-row clears from a new game: 10 points each, and the sixth row reaches level 2
      with a 410 ms interval. */
  lemma SixRowsReachLevelTwo()
    ensures ScoreAll(Progress(0, 1, 500), [1, 2, 3, 4, 5, 6]) == Progress(60, 2, 410)
  {
    assert ScoringCalls(0, 6) == [1, 2, 3, 4, 5, 6];
    ScoreAllAdvances(0, 6);
    assert ScoreFor(5) == 50;
  }

  /** What the timer tick did: nothing while paused or after game over, else one board tick. */
  datatype Outcome = Skipped | Ticked(tick: Tick)

  class Tetris {
    var interval: nat
    var score: nat
    var level: nat
    var isGameOver: bool
    var paused: bool
    var board: TetrisBoard

    /** The board is valid and score, level and interval are the standing of the rows the
        board has cleared in this game. */
    ghost predicate Valid()
      reads this, board, board.grid, board.currentBlock
    {
      board.Valid() && Progress(score, level, interval) == Standing(board.removedRowCount)
    }

    /** `__init__`: a board (which draws a piece), `new_game` (which resets the board and draws
        another), `continue_game`, then the first `_update`, which always lets the new piece
        fall one row. */
    constructor (boardKind: nat, boardColor: nat, kind: nat, colorIndex: nat)
      requires boardKind < |AllPieces()| && boardColor < |AllColors|
      requires kind < |AllPieces()| && colorIndex < |AllColors|
      ensures Valid() && !paused && !isGameOver
      ensures score == 0 && level == 1 && interval == 500
      ensures board.View() == EmptyView() && board.removedRowCount == 0
      ensures board.currentBlock.allRotations == AllPieces()[kind]
      ensures board.currentBlock.color == AllColors[colorIndex]
      ensures board.currentBlock.rotationIndex == 0
      ensures board.currentBlock.position == Point(4, 2)
    {
      board := new TetrisBoard(boardKind, boardColor);
      new;
      NewGame(kind, colorIndex);
      ContinueGame();
      EmptyViewConsistent();
      SpawnFalls(board.grid, AllPieces()[kind]);
      var outcome := Update(kind, colorIndex);
    }

    /** `new_game`: interval 500, score 0, level 1, the flag cleared and the board reset. */
    method NewGame(kind: nat, colorIndex: nat)
      requires kind < |AllPieces()| && colorIndex < |AllColors|
      modifies this, board
      ensures board == old(board) && paused == old(paused) && !isGameOver
      ensures Valid() && interval == 500 && score == 0 && level == 1
      ensures board.View() == EmptyView() && board.removedRowCount == 0
      ensures forall r :: 0 <= r < |board.grid| ==> fresh(board.grid[r])
      ensures fresh(board.currentBlock) && board.currentBlock.allRotations == AllPieces()[kind]
      ensures board.currentBlock.color == AllColors[colorIndex]
      ensures board.currentBlock.rotationIndex == 0 && board.currentBlock.position == SpawnPosition
    {
      interval := 500;
      score := 0;
      level := 1;
      isGameOver := false;
      board.Reset(kind, colorIndex);
    }

    /** `pause_game`: only the flag changes. */
    method PauseGame()
      requires Valid()
      modifies this`paused
      ensures Valid() && paused
    {
      paused := true;
    }

    /** `continue_game`: only the flag changes. */
    method ContinueGame()
      requires Valid()
      modifies this`paused
      ensures Valid() && !paused
    {
      paused := false;
    }

    /** `game_over`: only the flag changes; the score is not recorded. */
    method GameOver()
      requires Valid()
      modifies this`isGameOver
      ensures Valid() && isGameOver
    {
      isGameOver := true;
    }

    /** `scoring(removed)`: the scoring rule applied to score, level and interval. */
    method Scoring(removed: nat)
      modifies this`score, this`level, this`interval
      ensures Progress(score, level, interval) == ScoreRow(old(Progress(score, level, interval)), removed)
    {
      score := score + 9 + level;
      if removed > level * 5 && level < MaxLevel {
        level := level + 1;
        interval := IntervalFor(level);
      }
    }

    /** The scoring calls one board tick makes, in order. */
    method ScoreCalls(calls: seq<nat>)
      modifies this`score, this`level, this`interval
      ensures Progress(score, level, interval) == ScoreAll(old(Progress(score, level, interval)), calls)
    {
      ghost var start := Progress(score, level, interval);
      for k := 0 to |calls|
        invariant Progress(score, level, interval) == ScoreAll(start, calls[..k])
      {
        Scoring(calls[k]);
        assert calls[..k + 1][..k] == calls[..k];
      }
      assert calls[..|calls|] == calls;
    }

    /** The calls a board tick makes into the game: `game_over`, or `scoring` once per
        cleared row. */
    method Report(tick: Tick)
      requires tick.GameOver? ==> Valid()
      modifies this`isGameOver, this`score, this`level, this`interval
      ensures isGameOver == (old(isGameOver) || tick.GameOver?)
      ensures tick.Locked? ==>
        Progress(score, level, interval) == ScoreAll(old(Progress(score, level, interval)), tick.scoring)
      ensures !tick.Locked? ==> score == old(score) && level == old(level) && interval == old(interval)
    {
      if tick.GameOver? {
        GameOver();
      } else if tick.Locked? {
        ScoreCalls(tick.scoring);
      }
    }

    /** `_update`: unless paused or over, one board tick, whose game-over call sets the flag
        and whose scoring calls are applied in order. Rescheduling itself after `interval`
        milliseconds is the caller's business. */
    method Update(kind: nat, colorIndex: nat) returns (outcome: Outcome)
      requires Valid() && kind < |AllPieces()| && colorIndex < |AllColors|
      modifies this, board, board.grid, board.currentBlock
      ensures Valid() && board == old(board) && paused == old(paused)
      ensures outcome == Skipped <==> old(paused || isGameOver)
      ensures outcome == Skipped ==>
        isGameOver == old(isGameOver) && board.grid == old(board.grid) &&
        board.View() == old(board.View()) && board.removedRowCount == old(board.removedRowCount) &&
        board.currentBlock == old(board.currentBlock) && unchanged(board.currentBlock)
      ensures outcome.Ticked? ==>
        board.TickEffect(outcome.tick, kind, colorIndex) && (isGameOver <==> outcome.tick.GameOver?)
      ensures !(outcome.Ticked? && outcome.tick.Locked?) ==>
        score == old(score) && level == old(level) && interval == old(interval)
    {
      if paused || isGameOver {
        return Skipped;
      }
      ghost var before := board.removedRowCount;
      ghost var start := Progress(score, level, interval);
      var tick := Tick(kind, colorIndex, before);
      if tick.Locked? {
        CatchUp(start, before, board.removedRowCount, tick.scoring);
      }
      outcome := Ticked(tick);
    }

    /** The tick itself, once the gate is passed: the board's tick, then the game-over call or
        the scoring calls it makes. */
    method Tick(kind: nat, colorIndex: nat, ghost before: nat) returns (tick: Tick)
      requires Valid() && kind < |AllPieces()| && colorIndex < |AllColors|
      requires board.removedRowCount == before
      modifies this`isGameOver, this`score, this`level, this`interval, board, board.grid, board.currentBlock
      ensures board.Valid() && board.TickEffect(tick, kind, colorIndex)
      ensures !tick.Locked? ==> board.removedRowCount == before
      ensures tick.Locked? ==>
        board.removedRowCount >= before && tick.scoring == ScoringCalls(before, board.removedRowCount - before)
      ensures isGameOver == (old(isGameOver) || tick.GameOver?)
      ensures tick.Locked? ==>
        Progress(score, level, interval) == ScoreAll(old(Progress(score, level, interval)), tick.scoring)
      ensures !tick.Locked? ==> score == old(score) && level == old(level) && interval == old(interval)
    {
      tick := board.Update(kind, colorIndex);
      Report(tick);
    }
  }

  /** On an empty board a piece at the spawn anchor can always fall one row. */
  lemma SpawnFalls(grid: seq<array<Cell>>, states: seq<seq<Point>>)
    requires WellFormed(grid) && ViewOf(grid) == EmptyView() && Shape(states)
    ensures Fits(grid, states[0], Add(SpawnPosition, Point(0, 1)))
  {
    var anchor := Add(SpawnPosition, Point(0, 1));
    forall k | 0 <= k < |states[0]| ensures EmptyAt(grid, Add(anchor, states[0][k])) {
      var p := Add(anchor, states[0][k]);
      assert SmallOffset(states[0][k]);
      assert ViewOf(grid)[p.y].cells == BlankCells();
    }
  }
}
