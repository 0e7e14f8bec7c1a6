/**
 * The SudokuBoard class of solver/board.py: the grid as nine rows of nine
 * values, replaced by the updated grid at every placement; the candidate
 * dictionary, rebuilt after every placement and shrunk by the eliminations;
 * and the list of step records.
 * Every method is proved against the value-level rules of module Techniques.
 */
module SolverBoard {
  import opened Rules
  import opened Techniques

  class SudokuBoard {
    var board: Grid
    var candidates: CandidateMap
    var solutionSteps: seq<Step>

    /** The grid and the candidate dictionary as a value. */
    ghost function Current(): Puzzle
      reads this`board, this`candidates
    {
      Puzzle(board, candidates)
    }

    /** The object invariant: a 9x9 grid and a candidate dictionary coherent with it. */
    ghost predicate Valid()
      reads this`board, this`candidates
    {
      Coherent(Current())
    }

    /** The method did what outcome o says, starting from puzzle s0 and step list steps0. */
    ghost predicate Did(o: Outcome, ok: bool, s0: Puzzle, steps0: seq<Step>)
      reads this`board, this`candidates, this`solutionSteps
    {
      ok == o.Applied? &&
      if ok then Current() == o.next && solutionSteps == steps0 + [o.step]
      else Current() == s0 && solutionSteps == steps0
    }

    /** __init__: the given grid (an all-zero grid when none is given), its candidates, no steps. */
    constructor (initial: Option<Grid>)
      requires initial.Some? ==> IsGrid(initial.value)
      ensures Valid()
      ensures board == (if initial.Some? then initial.value else EmptyGrid())
      ensures candidates == Rebuild(board) && solutionSteps == []
    {
      board := if initial.Some? then initial.value else EmptyGrid();
      candidates := map[];
      new;
      InitializeCandidates();
      solutionSteps := [];
      EmptyUnion(Rebuild(board));
      RebuildIsCoherent(board);
    }

    /** initialize_candidates: adds every empty cell, row-major, with its candidates. */
    method InitializeCandidates()
      requires IsGrid(board)
      modifies this`candidates
      ensures candidates == old(candidates) + Rebuild(board)
    {
      ghost var g := board;
      for i := 0 to 9
        invariant candidates == old(candidates) + RebuildBefore(g, i, 0)
      {
        for j := 0 to 9
          invariant candidates == old(candidates) + RebuildBefore(g, i, j)
        {
          RebuildBeforeStep(old(candidates), g, i, j);
          if board[i][j] == 0 {
            var cs := GetCandidates(i, j);
            candidates := candidates[(i, j) := cs];
          }
        }
      }
      RebuildBeforeAll(g);
    }

    /** get_candidates */
    method GetCandidates(row: int, col: int) returns (result: set<int>)
      requires IsGrid(board) && 0 <= row < 9 && 0 <= col < 9
      ensures result == Candidates(board, row, col)
    {
      if board[row][col] != 0 {
        return {};
      }
      var used := set j | 0 <= j < 9 :: board[row][j];
      used := used + set i | 0 <= i < 9 :: board[i][col];
      var boxRow, boxCol := BoxStart(row), BoxStart(col);
      for i := boxRow to boxRow + 3
        invariant forall n :: n in used <==>
          (exists j :: 0 <= j < 9 && board[row][j] == n) ||
          (exists i' :: 0 <= i' < 9 && board[i'][col] == n) ||
          (exists i', j' :: boxRow <= i' < i && boxCol <= j' < boxCol + 3 && board[i'][j'] == n)
      {
        for j := boxCol to boxCol + 3
          invariant forall n :: n in used <==>
            (exists j :: 0 <= j < 9 && board[row][j] == n) ||
            (exists i' :: 0 <= i' < 9 && board[i'][col] == n) ||
            (exists i', j' :: boxRow <= i' < i && boxCol <= j' < boxCol + 3 && board[i'][j'] == n) ||
            (exists j' :: boxCol <= j' < j && board[i][j'] == n)
        {
          used := used + {board[i][j]};
        }
      }
      result := Digits - used;
      ghost var g := board;
      forall n ensures n in result <==> n in Candidates(g, row, col) {
        CandidateIffValid(g, row, col, n);
      }
    }

    /** is_valid */
    method IsValid(row: int, col: int, num: int) returns (ok: bool)
      requires IsGrid(board) && 0 <= row < 9 && 0 <= col < 9
      ensures ok == Rules.IsValid(board, row, col, num)
    {
      for j := 0 to 9
        invariant forall j' :: 0 <= j' < j ==> board[row][j'] != num
      {
        if board[row][j] == num {
          return false;
        }
      }
      for i := 0 to 9
        invariant forall i' :: 0 <= i' < i ==> board[i'][col] != num
      {
        if board[i][col] == num {
          return false;
        }
      }
      var boxRow, boxCol := BoxStart(row), BoxStart(col);
      for i := boxRow to boxRow + 3
        invariant forall i', j' :: boxRow <= i' < i && boxCol <= j' < boxCol + 3 ==> board[i'][j'] != num
      {
        for j := boxCol to boxCol + 3
          invariant forall i', j' :: boxRow <= i' < i && boxCol <= j' < boxCol + 3 ==> board[i'][j'] != num
          invariant forall j' :: boxCol <= j' < j ==> board[i][j'] != num
        {
          if board[i][j] == num {
            return false;
          }
        }
      }
      return true;
    }

    /** find_empty: the first empty cell in row-major order, or None when there is none. */
    method FindEmpty() returns (r: Option<Cell>)
      requires IsGrid(board)
      ensures r.Some? ==> InGrid(r.value) && board[r.value.0][r.value.1] == 0
      ensures r.Some? ==> forall i, j :: 0 <= i < 9 && 0 <= j < 9 && 9 * i + j < 9 * r.value.0 + r.value.1 ==> board[i][j] != 0
      ensures r.None? <==> Full(board)
    {
      for i := 0 to 9
        invariant forall i', j' :: 0 <= i' < i && 0 <= j' < 9 ==> board[i'][j'] != 0
      {
        for j := 0 to 9
          invariant forall i', j' :: 0 <= i' < i && 0 <= j' < 9 ==> board[i'][j'] != 0
          invariant forall j' :: 0 <= j' < j ==> board[i][j'] != 0
        {
          if board[i][j] == 0 {
            return Some((i, j));
          }
        }
      }
      return None;
    }

    /** is_solved: no cell of the grid is 0. */
    method IsSolved() returns (solved: bool)
      requires IsGrid(board)
      ensures solved <==> Full(board)
    {
      for i := 0 to 9
        invariant forall i', j' :: 0 <= i' < i && 0 <= j' < 9 ==> board[i'][j'] != 0
      {
        for j := 0 to 9
          invariant forall i', j' :: 0 <= i' < i && 0 <= j' < 9 ==> board[i'][j'] != 0
          invariant forall j' :: 0 <= j' < j ==> board[i][j'] != 0
        {
          if board[i][j] == 0 {
            return false;
          }
        }
      }
      return true;
    }

    /** update_candidates: clears the dictionary and rebuilds it from the grid. */
    method UpdateCandidates()
      requires IsGrid(board)
      modifies this`candidates
      ensures Valid() && candidates == Rebuild(board)
    {
      candidates := map[];
      InitializeCandidates();
      assert candidates == Rebuild(board);
      RebuildIsCoherent(board);
    }

    /** The positions list of a unit and a digit, built as the scans of solve_single_position and solve_block_line_reduction build it. */
    method CollectPositions(unit: int, num: int) returns (positions: seq<Cell>)
      requires IsGrid(board) && 0 <= unit < 27
      ensures positions == Positions(Current(), unit, num, 9)
    {
      positions := [];
      for i := 0 to 9
        invariant positions == Positions(Current(), unit, num, i)
      {
        var p := UnitCell(unit, i);
        if board[p.0][p.1] == 0 && num in Get(candidates, p) {
          positions := positions + [p];
        }
      }
    }

    /**
     * The elimination loop of solve_naked_pairs and solve_block_line_reduction:
     * removes digits from the empty cells of a row whose column is not skipped,
     * and reports whether any set shrank.
     */
    method RemoveFromRow(row: int, digits: set<int>, skip: set<int>) returns (removed: bool)
      requires Valid() && 0 <= row < 9
      modifies this`candidates
      ensures Valid()
      ensures candidates == Eliminate(old(Current()), row, digits, skip)
      ensures removed == Shrinks(old(Current()), row, digits, skip)
      ensures !removed ==> candidates == old(candidates)
    {
      ghost var s0 := Current();
      removed := false;
      EliminateNothing(s0, row, digits, skip + ColsFrom(0));
      for other := 0 to 9
        invariant candidates == Eliminate(s0, row, digits, skip + ColsFrom(other))
        invariant removed == Shrinks(s0, row, digits, skip + ColsFrom(other))
      {
        EliminateStep(s0, row, digits, skip, other);
        if other !in skip && board[row][other] == 0 {
          var before := Get(candidates, (row, other));
          var after := before - digits;
          if |after| < |before| {
            removed := true;
            candidates := candidates[(row, other) := after];
          }
        }
      }
      assert skip + ColsFrom(9) == skip;
      EliminateKeepsCoherent(s0, row, digits, skip);
      EliminateEffect(s0, row, digits, skip);
    }

    /**
     * The scan of solve_single_candidate: the first cell of the dictionary, in
     * row-major order, whose candidate set has one member, which is what
     * FirstSet finds among the single-candidate flags.
     */
    method FindSingle() returns (found: bool, pos: Cell, num: int)
      ensures found ==> InGrid(pos) && pos in candidates && candidates[pos] == {num}
      ensures found ==> FirstSet(SingleFlags(candidates), 0, 0) == Some(pos)
      ensures found ==> forall i, j :: 0 <= i < 9 && 0 <= j < 9 && Before((i, j), pos.0, pos.1) ==> !IsSingle(candidates, (i, j))
      ensures !found ==> FirstSet(SingleFlags(candidates), 0, 0) == None
    {
      for row := 0 to 9
        invariant forall i, j :: 0 <= i < 9 && 0 <= j < 9 && Before((i, j), row, 0) ==> !IsSingle(candidates, (i, j))
      {
        for col := 0 to 9
          invariant forall i, j :: 0 <= i < 9 && 0 <= j < 9 && Before((i, j), row, col) ==> !IsSingle(candidates, (i, j))
        {
          if (row, col) in candidates && |candidates[(row, col)]| == 1 {
            SingleFirst(candidates, (row, col));
            var s := candidates[(row, col)];
            NonEmpty(s);
            num :| num in s;
            SingletonIs(s, num);
            return true, (row, col), num;
          }
        }
      }
      SingleNone(candidates);
      return false, (0, 0), 0;
    }

    /** solve_single_candidate: the first cell with one candidate receives it. */
    method SolveSingleCandidate() returns (ok: bool)
      requires Valid()
      modifies this`board, this`candidates, this`solutionSteps
      ensures Valid() && Did(SingleCandidateRule(old(Current())), ok, old(Current()), old(solutionSteps))
    {
      ghost var s0 := Current();
      var found, pos, num := FindSingle();
      if !found {
        return false;
      }
      SingleCandidateFound(s0, pos, num);
      PlaceDigit(pos, num, SingleCandidate(pos, num));
      return true;
    }

    /** The placement both placing techniques make: write v into cell p, record the step, then update_candidates. */
    method PlaceDigit(p: Cell, v: int, step: Step)
      requires IsGrid(board) && InGrid(p)
      modifies this`board, this`candidates, this`solutionSteps
      ensures Valid() && Current() == Fill(old(Current()), p, v)
      ensures solutionSteps == old(solutionSteps) + [step]
    {
      board := board[p.0 := board[p.0][p.1 := v]];
      solutionSteps := solutionSteps + [step];
      UpdateCandidates();
    }

    /**
     * The scan of solve_single_position: the first unit (rows, then columns,
     * then boxes) and digit, in that order, for which the positions list has
     * exactly one cell; positions is that list.
     */
    method FindUnique() returns (found: bool, unit: int, num: int, positions: seq<Cell>)
      requires IsGrid(board)
      ensures found ==> 0 <= unit < 27 && 1 <= num <= 9 && UniqueIn(Current(), unit, num)
      ensures found ==> positions == Positions(Current(), unit, num, 9)
      ensures found ==> forall u, n :: 0 <= u < 27 && 1 <= n <= 9 && Before((u, n), unit, num) ==> !UniqueIn(Current(), u, n)
      ensures !found ==> forall u, n :: 0 <= u < 27 && 1 <= n <= 9 ==> !UniqueIn(Current(), u, n)
    {
      for u := 0 to 27
        invariant forall u', n :: 0 <= u' < 27 && 1 <= n <= 9 && Before((u', n), u, 1) ==> !UniqueIn(Current(), u', n)
      {
        for n := 1 to 10
          invariant forall u', n' :: 0 <= u' < 27 && 1 <= n' <= 9 && Before((u', n'), u, n) ==> !UniqueIn(Current(), u', n')
        {
          positions := CollectPositions(u, n);
          if |positions| == 1 {
            return true, u, n, positions;
          }
        }
      }
      return false, 0, 0, [];
    }

    /** solve_single_position: a digit with one place in some unit goes there. */
    method SolveSinglePosition() returns (ok: bool)
      requires Valid()
      modifies this`board, this`candidates, this`solutionSteps
      ensures Valid() && Did(SinglePositionRule(old(Current())), ok, old(Current()), old(solutionSteps))
    {
      ghost var s0 := Current();
      var found, unit, num, positions := FindUnique();
      if !found {
        SinglePositionNone(s0);
        return false;
      }
      var pos := positions[0];
      SinglePositionAt(s0, unit, num);
      PlaceDigit(pos, num, SinglePosition(pos, num));
      return true;
    }

    /**
     * The elimination and record of solve_naked_pairs for the pair (low, high)
     * found in columns c1 < c2 of the row: the two digits leave every other
     * empty cell of the row, and the step is recorded when something was removed.
     */
    method RemovePair(row: int, c1: int, c2: int, low: int, high: int) returns (removed: bool)
      requires Valid() && IsNakedPair(Current(), row, c1, c2) && Get(candidates, (row, c2)) == {low, high} && low < high
      modifies this`candidates, this`solutionSteps
      ensures Valid()
      ensures removed == Shrinks(old(Current()), row, {low, high}, {c1, c2})
      ensures removed ==> Did(PairElimination(old(Current()), row, c1, c2), true, old(Current()), old(solutionSteps))
      ensures !removed ==> Current() == old(Current()) && solutionSteps == old(solutionSteps)
    {
      ghost var s0 := Current();
      removed := RemoveFromRow(row, {low, high}, {c1, c2});
      if removed {
        solutionSteps := solutionSteps + [NakedPairs((row, c1), (row, c2), low, high)];
        ghost var o := Ordered({low, high});
        assert o.0 in {low, high} && o.1 in {low, high};
        assert PairElimination(s0, row, c1, c2) == Applied(Puzzle(s0.grid, candidates), NakedPairs((row, c1), (row, c2), low, high));
      }
    }

    /** solve_naked_pairs (rows only) */
    method SolveNakedPairs() returns (ok: bool)
      requires Valid()
      modifies this`candidates, this`solutionSteps
      ensures Valid() && Did(NakedPairsRule(old(Current())), ok, old(Current()), old(solutionSteps))
    {
      ghost var s0 := Current();
      for row := 0 to 9
        invariant Valid() && Current() == s0 && solutionSteps == old(solutionSteps)
        invariant PairScan(s0, 0, 0, map[]) == PairScan(s0, row, 0, map[])
      {
        var pairs: map<(int, int), int> := map[];
        for col := 0 to 9
          invariant Valid() && Current() == s0 && solutionSteps == old(solutionSteps)
          invariant PairsOk(s0, row, col, pairs)
          invariant PairScan(s0, 0, 0, map[]) == PairScan(s0, row, col, pairs)
        {
          if board[row][col] == 0 {
            var cands := Get(candidates, (row, col));
            if |cands| == 2 {
              var low, high := SortPair(cands);
              if (low, high) in pairs {
                var removed := RemovePair(row, pairs[(low, high)], col, low, high);
                if removed {
                  return true;
                }
              } else {
                pairs := pairs[(low, high) := col];
              }
            }
          }
        }
      }
      return false;
    }

    /** tuple(sorted(pair)) for a two-element set. */
    static method SortPair(pair: set<int>) returns (low: int, high: int)
      requires |pair| == 2
      ensures (low, high) == Ordered(pair)
    {
      NonEmpty(pair);
      var a :| a in pair;
      assert pair == (pair - {a}) + {a};
      NonEmpty(pair - {a});
      var b :| b in pair - {a};
      low, high := if a < b then a else b, if a < b then b else a;
      SubsetCard({low, high}, pair);
      var r := Ordered(pair);
      assert r.0 in {low, high} && r.1 in {low, high};
    }

    /**
     * One box and digit of solve_block_line_reduction: the digit's places in
     * the box and, when they share a row, its removal from the rest of that
     * row, recorded when something was removed.
     */
    method ReduceBox(box: int, num: int) returns (removed: bool)
      requires Valid() && 0 <= box < 9 && 1 <= num <= 9
      modifies this`candidates, this`solutionSteps
      ensures Valid()
      ensures removed == ReducesIn(old(Current()), box, num)
      ensures removed ==> Did(Reduction(old(Current()), box, num), true, old(Current()), old(solutionSteps))
      ensures !removed ==> Current() == old(Current()) && solutionSteps == old(solutionSteps)
    {
      ghost var s0 := Current();
      var positions := CollectPositions(18 + box, num);
      assert Current() == s0;
      removed := false;
      if |positions| > 0 && forall i | 0 <= i < |positions| :: positions[i].0 == positions[0].0 {
        var row := positions[0].0;
        removed := RemoveFromRow(row, {num}, BoxCols(box));
        if removed {
          solutionSteps := solutionSteps + [BlockLineReduction(positions, num)];
          assert Reduction(s0, box, num) == Applied(Puzzle(s0.grid, candidates), BlockLineReduction(positions, num));
        }
      }
    }

    /** solve_block_line_reduction (row alignment only); boxes in row-major order. */
    method SolveBlockLineReduction() returns (ok: bool)
      requires Valid()
      modifies this`candidates, this`solutionSteps
      ensures Valid() && Did(BlockLineRule(old(Current())), ok, old(Current()), old(solutionSteps))
    {
      ghost var s0 := Current();
      for box := 0 to 9
        invariant Valid() && Current() == s0 && solutionSteps == old(solutionSteps)
        invariant forall b, n :: 0 <= b < 9 && 1 <= n <= 9 && Before((b, n), box, 1) ==> !ReducesIn(s0, b, n)
      {
        for num := 1 to 10
          invariant Valid() && Current() == s0 && solutionSteps == old(solutionSteps)
          invariant forall b, n :: 0 <= b < 9 && 1 <= n <= 9 && Before((b, n), box, num) ==> !ReducesIn(s0, b, n)
        {
          var removed := ReduceBox(box, num);
          if removed {
            BlockLineAt(s0, box, num);
            return true;
          }
          NoReductionBefore(s0, box, num);
        }
      }
      BlockLineNone(s0);
      return false;
    }

    /** solve_step: the four techniques in priority order, stopping at the first that succeeds. */
    method SolveStep() returns (ok: bool)
      requires Valid()
      modifies this`board, this`candidates, this`solutionSteps
      ensures Valid() && Did(StepRule(old(Current())), ok, old(Current()), old(solutionSteps))
    {
      ok := SolveSingleCandidate();
      if ok {
        return;
      }
      ok := SolveSinglePosition();
      if ok {
        return;
      }
      ok := SolveNakedPairs();
      if ok {
        return;
      }
      ok := SolveBlockLineReduction();
    }
  }
}
