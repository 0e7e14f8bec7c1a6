/**
 * The two pieces of main.py that drive the engine: the shaping of imported
 * CSV rows into a 9x9 grid (SudokuApp.import_csv), with every cell already
 * reduced to a token, and the full-solve loop (SudokuApp.solve).
 */
module App {
  import opened Rules
  import opened Techniques
  import opened Progress
  import opened SolverBoard

  /** A CSV cell after invisible characters and surrounding spaces are stripped. */
  datatype Token =
    | Blank           // nothing left after stripping
    | Int(n: int)     // text that int() accepts, with its value
    | Unparsable      // text that int() rejects

  /** An integer cell outside 0..9: the import stops with an error message. */
  predicate OutOfRange(t: Token)
  {
    t.Int? && !(0 <= t.n <= 9)
  }

  /** The value a cell contributes to its row: blank and unparsable cells become 0. */
  function TokenValue(t: Token): (v: int)
    ensures !OutOfRange(t) ==> 0 <= v <= 9
    ensures t.Int? ==> v == t.n
    ensures !t.Int? ==> v == 0
  {
    if t.Int? then t.n else 0
  }

  /** The converted row (number_row before padding), or None when one of its cells aborts the import. */
  function ConvertRow(row: seq<Token>): (r: Option<seq<int>>)
    ensures r.None? <==> exists j :: 0 <= j < |row| && OutOfRange(row[j])
    ensures r.Some? ==> |r.value| == |row| && forall j :: 0 <= j < |row| ==> r.value[j] == TokenValue(row[j])
  {
    if row == [] then Some([])
    else if OutOfRange(row[0]) then None
    else match ConvertRow(row[1..])
      case None => None
      case Some(rest) => Some([TokenValue(row[0])] + rest)
  }

  /** The converted rows, or None when a cell anywhere, past the ninth row or column included, aborts. */
  function ConvertRows(rows: seq<seq<Token>>): (r: Option<seq<seq<int>>>)
    ensures r.None? <==> exists i, j :: 0 <= i < |rows| && 0 <= j < |rows[i]| && OutOfRange(rows[i][j])
    ensures r.Some? ==> |r.value| == |rows| && forall i :: 0 <= i < |rows| ==> ConvertRow(rows[i]) == Some(r.value[i])
  {
    if rows == [] then Some([])
    else match ConvertRow(rows[0])
      case None => None
      case Some(first) =>
        match ConvertRows(rows[1..])
        case None =>
          var i, j :| 0 <= i < |rows[1..]| && 0 <= j < |rows[1..][i]| && OutOfRange(rows[1..][i][j]);
          assert OutOfRange(rows[i + 1][j]);
          None
        case Some(rest) => Some([first] + rest)
  }

  /** Padded with pad up to length 9 and cut to the first 9 entries. */
  function Fit<T>(xs: seq<T>, pad: T): (r: seq<T>)
    ensures |r| == 9
    ensures forall j :: 0 <= j < 9 ==> r[j] == if j < |xs| then xs[j] else pad
  {
    if |xs| >= 9 then xs[..9] else xs + seq(9 - |xs|, _ => pad)
  }

  /** The row of nine zeros the import appends to a short grid. */
  function ZeroRow(): seq<int>
  {
    seq(9, _ => 0)
  }

  /**
   * The grid import_csv builds from the rows of tokens: None when an integer
   * outside 0..9 occurs anywhere; otherwise a 9x9 grid whose cell (i, j) is
   * the value of token j of row i, and 0 where the file has no such cell.
   */
  function ShapeGrid(rows: seq<seq<Token>>): (r: Option<Grid>)
    ensures r.None? <==> exists i, j :: 0 <= i < |rows| && 0 <= j < |rows[i]| && OutOfRange(rows[i][j])
    ensures r.Some? ==> IsGrid(r.value)
    ensures r.Some? ==> forall i, j :: 0 <= i < 9 && 0 <= j < 9 ==>
      r.value[i][j] == (if i < |rows| && j < |rows[i]| then TokenValue(rows[i][j]) else 0) && 0 <= r.value[i][j] <= 9
  {
    match ConvertRows(rows)
    case None => None
    case Some(vs) =>
      var g := Fit(seq(|vs|, i requires 0 <= i < |vs| => Fit(vs[i], 0)), ZeroRow());
      assert forall i, j :: 0 <= i < |rows| && 0 <= j < |rows[i]| ==> !OutOfRange(rows[i][j]);
      Some(g)
  }

  /** The grid written out as nine rows of nine integer cells, as the CSV export of a board would read. */
  function Tokens(g: Grid): (rows: seq<seq<Token>>)
    requires IsGrid(g)
    ensures |rows| == 9 && forall i :: 0 <= i < 9 ==> |rows[i]| == 9
  {
    seq(9, i requires 0 <= i < 9 => seq(9, j requires 0 <= j < 9 => Int(g[i][j])))
  }

  /** A grid of values 0..9 written out as integer cells is shaped back into itself. */
  lemma ShapeOfGrid(g: Grid)
    requires IsGrid(g) && forall i, j :: 0 <= i < 9 && 0 <= j < 9 ==> 0 <= g[i][j] <= 9
    ensures ShapeGrid(Tokens(g)) == Some(g)
  {
    var rows := Tokens(g);
    var r := ShapeGrid(rows);
    forall i, j | 0 <= i < |rows| && 0 <= j < |rows[i]| ensures !OutOfRange(rows[i][j]) {
      assert rows[i][j] == Int(g[i][j]);
    }
    assert r.Some? && IsGrid(r.value);
    forall i | 0 <= i < 9 ensures r.value[i] == g[i] {
      forall j | 0 <= j < 9 ensures r.value[i][j] == g[i][j] {
        assert rows[i][j] == Int(g[i][j]);
      }
    }
    assert r.value == g;
  }

  /**
   * The grid-shaping part of import_csv: each row's cells are converted in
   * order, an out-of-range integer abandons the import, each row is padded
   * with zeros and cut to nine entries, and the grid is padded with zero rows
   * and cut to nine rows.
   */
  method ImportGrid(rows: seq<seq<Token>>) returns (r: Option<Grid>)
    ensures r == ShapeGrid(rows)
  {
    var board: seq<seq<int>> := [];
    for i := 0 to |rows|
      invariant |board| == i
      invariant forall k :: 0 <= k < i ==> ConvertRow(rows[k]).Some? && board[k] == Fit(ConvertRow(rows[k]).value, 0)
    {
      var row := rows[i];
      var numberRow: seq<int> := [];
      for j := 0 to |row|
        invariant |numberRow| == j
        invariant forall k :: 0 <= k < j ==> !OutOfRange(row[k]) && numberRow[k] == TokenValue(row[k])
      {
        match row[j]
        case Blank =>
          numberRow := numberRow + [0];
        case Int(n) =>
          if 0 <= n <= 9 {
            numberRow := numberRow + [n];
          } else {
            assert OutOfRange(rows[i][j]);
            return None;
          }
        case Unparsable =>
          numberRow := numberRow + [0];
      }
      ghost var converted := numberRow;
      ghost var cr := ConvertRow(row);
      assert cr.Some? && |cr.value| == |converted|;
      assert forall k :: 0 <= k < |converted| ==> cr.value[k] == converted[k];
      assert cr.value == converted;
      while |numberRow| < 9
        invariant |converted| <= |numberRow| && (|numberRow| <= 9 || |numberRow| == |converted|)
        invariant forall k :: 0 <= k < |numberRow| ==> numberRow[k] == if k < |converted| then converted[k] else 0
        decreases 9 - |numberRow|
      {
        numberRow := numberRow + [0];
      }
      numberRow := numberRow[..9];
      assert numberRow == Fit(converted, 0);
      board := board + [numberRow];
    }
    ghost var shaped := board;
    assert forall i, j :: 0 <= i < |rows| && 0 <= j < |rows[i]| ==> !OutOfRange(rows[i][j]) by {
      forall i, j | 0 <= i < |rows| && 0 <= j < |rows[i]| ensures !OutOfRange(rows[i][j]) {
        assert ConvertRow(rows[i]).Some?;
      }
    }
    while |board| < 9
      invariant |shaped| <= |board| && (|board| <= 9 || |board| == |shaped|)
      invariant forall k :: 0 <= k < |board| ==> board[k] == if k < |shaped| then shaped[k] else ZeroRow()
      decreases 9 - |board|
    {
      board := board + [ZeroRow()];
    }
    board := board[..9];
    var g := ShapeGrid(rows).value;
    forall i | 0 <= i < 9 ensures board[i] == g[i] {
      forall j | 0 <= j < 9 ensures board[i][j] == g[i][j] {
        if i < |rows| {
          assert board[i] == shaped[i] == Fit(ConvertRow(rows[i]).value, 0);
        } else {
          assert board[i] == ZeroRow();
        }
      }
    }
    assert board == g;
    return Some(board);
  }

  // ---------------------------------------------------------------- the full solve

  /** The number of steps in the log that filled a cell. */
  function Placements(log: seq<Step>): (k: nat)
    ensures k <= |log|
    ensures k == 0 <==> forall i :: 0 <= i < |log| ==> !IsPlacement(log[i])
    ensures k == |log| <==> forall i :: 0 <= i < |log| ==> IsPlacement(log[i])
  {
    if log == [] then 0 else Placements(log[..|log| - 1]) + (if IsPlacement(log[|log| - 1]) then 1 else 0)
  }

  lemma PlacementsAppend(log: seq<Step>, step: Step)
    ensures Placements(log + [step]) == Placements(log) + (if IsPlacement(step) then 1 else 0)
  {
    assert (log + [step])[..|log|] == log;
  }

  /**
   * What the solve loop keeps about the board b it has reached from grid
   * after logging log: the filled cells of grid, its consistency, and the
   * count of empty cells plus placements logged.
   */
  ghost predicate Tracks(grid: Grid, b: Grid, log: seq<Step>)
    requires IsGrid(grid) && IsGrid(b)
  {
    Extends(grid, b) && (Consistent(grid) ==> Consistent(b)) &&
    EmptyCount(b) + Placements(log) == EmptyCount(grid)
  }

  /**
   * What the solve loop keeps across one successful step from s: the filled
   * cells of the starting grid, its consistency, and the count of empty cells
   * plus placements logged.
   */
  lemma LoopStep(grid: Grid, s: Puzzle, log: seq<Step>)
    requires IsGrid(grid) && Coherent(s) && StepRule(s).Applied?
    requires Tracks(grid, s.grid, log)
    ensures var n := StepRule(s).next;
      Coherent(n) && Progressed(n, s) && Tracks(grid, n.grid, log + [StepRule(s).step])
  {
    StepEffect(s);
    StepProgress(s);
    PlacementsAppend(log, StepRule(s).step);
  }

  /**
   * What the solve loop computes from s: solve_step repeated while the grid
   * is not full and some technique applies, giving the final engine state and
   * the records of the successful steps in order. It ends in a coherent state
   * (RunEnds says where).
   */
  ghost function Run(s: Puzzle): (r: (Puzzle, seq<Step>))
    requires Coherent(s)
    ensures Coherent(r.0)
    decreases EmptyCount(s.grid), TotalCands(s.cands)
  {
    if Full(s.grid) then (s, [])
    else match StepRule(s)
      case NotApplicable => (s, [])
      case Applied(n, step) =>
        StepEffect(s);
        StepProgress(s);
        var r := Run(n);
        (r.0, [step] + r.1)
  }

  /** Run from an unfinished state where step st leads to n: that step, then Run from n. */
  lemma RunApplied(s: Puzzle, n: Puzzle, st: Step)
    requires Coherent(s) && !Full(s.grid) && StepRule(s) == Applied(n, st)
    ensures Coherent(n) && Run(s) == (Run(n).0, [st] + Run(n).1)
  {
    StepEffect(s);
  }

  /** Run ends with the grid full or with no technique applicable. */
  lemma {:induction false} RunEnds(s: Puzzle)
    requires Coherent(s)
    ensures Full(Run(s).0.grid) || StepRule(Run(s).0) == NotApplicable
    decreases EmptyCount(s.grid), TotalCands(s.cands)
  {
    if !Full(s.grid) && StepRule(s).Applied? {
      var o := StepRule(s);
      RunApplied(s, o.next, o.step);
      StepProgress(s);
      RunEnds(o.next);
    }
  }

  /** Run from a full state, or one where no technique applies, does nothing. */
  lemma RunStops(s: Puzzle)
    requires Coherent(s) && (Full(s.grid) || StepRule(s) == NotApplicable)
    ensures Run(s) == (s, [])
  {
  }

  /**
   * The loop invariant of Solve carried over one successful step from s to n:
   * what Run still has to do, after the log, accounts for all of Run from start.
   */
  lemma RunAdvance(start: Puzzle, s: Puzzle, n: Puzzle, st: Step, log: seq<Step>)
    requires Coherent(start) && Coherent(s) && !Full(s.grid) && StepRule(s) == Applied(n, st)
    requires Run(start) == (Run(s).0, log + Run(s).1)
    ensures Coherent(n) && Run(start) == (Run(n).0, (log + [st]) + Run(n).1)
  {
    RunApplied(s, n, st);
    AppendAssoc(log, [st], Run(n).1);
  }

  lemma AppendAssoc(a: seq<Step>, b: seq<Step>, c: seq<Step>)
    ensures a + (b + c) == (a + b) + c
  {
  }

  lemma AppendEmpty(a: seq<Step>)
    ensures [] + a == a && a + [] == a
  {
  }

  /**
   * One pass of the loop in SudokuApp.solve: solve_step; when it succeeds its
   * step record joins the log and solution_steps is cleared. A success moves
   * the engine down the progress order; a failure leaves it where it was, with
   * no technique applicable.
   */
  method SolveIteration(solver: SudokuBoard, ghost grid: Grid, log: seq<Step>) returns (ok: bool, log': seq<Step>)
    requires IsGrid(grid) && solver.Valid() && solver.solutionSteps == []
    requires Tracks(grid, solver.board, log)
    modifies solver
    ensures solver.Valid() && solver.solutionSteps == []
    ensures Tracks(grid, solver.board, log')
    ensures ok ==>
      StepRule(old(solver.Current())).Applied? &&
      solver.Current() == StepRule(old(solver.Current())).next &&
      log' == log + [StepRule(old(solver.Current())).step]
    ensures ok ==> Progressed(solver.Current(), old(solver.Current()))
    ensures !ok ==> solver.Current() == old(solver.Current()) && log' == log && StepRule(solver.Current()) == NotApplicable
  {
    ghost var s0 := solver.Current();
    ok := solver.SolveStep();
    if !ok {
      return ok, log;
    }
    LoopStep(grid, s0, log);
    log' := log + solver.solutionSteps;
    solver.solutionSteps := [];
  }

  /**
   * SudokuApp.solve: a fresh engine on the grid; while the grid is not
   * solved, one pass of SolveIteration, and the loop stops when it fails.
   * The loop ends with the grid solved, or with no technique applicable;
   * every filled cell of the starting grid stays, a consistent grid stays
   * consistent, and every cell filled on the way is one placement in the log.
   * The final state and the log are exactly what Run computes from the fresh
   * engine.
   */
  method Solve(grid: Grid) returns (solver: SudokuBoard, log: seq<Step>, solved: bool)
    requires IsGrid(grid)
    ensures fresh(solver) && solver.Valid() && solver.solutionSteps == []
    ensures Extends(grid, solver.board) && (Consistent(grid) ==> Consistent(solver.board))
    ensures EmptyCount(solver.board) + Placements(log) == EmptyCount(grid)
    ensures solved <==> Full(solver.board)
    ensures !solved ==> StepRule(solver.Current()) == NotApplicable
    ensures Coherent(Puzzle(grid, Rebuild(grid))) && (solver.Current(), log) == Run(Puzzle(grid, Rebuild(grid)))
  {
    solver := new SudokuBoard(Some(grid));
    log := [];
    solved := solver.IsSolved();
    ghost var start := solver.Current();
    AppendEmpty(Run(start).1);
    while !solved
      invariant fresh(solver) && solver.Valid() && solver.solutionSteps == []
      invariant Run(start) == (Run(solver.Current()).0, log + Run(solver.Current()).1)
      invariant Tracks(grid, solver.board, log)
      invariant solved <==> Full(solver.board)
      decreases EmptyCount(solver.board), TotalCands(solver.candidates)
    {
      var ok;
      ghost var s := solver.Current();
      ghost var log0 := log;
      ok, log := SolveIteration(solver, grid, log);
      if !ok {
        RunStops(s);
        AppendEmpty(log);
        break;
      }
      RunAdvance(start, s, solver.Current(), StepRule(s).step, log0);
      solved := solver.IsSolved();
    }
    RunStops(solver.Current());
    AppendEmpty(log);
  }
}
