/**
 * What the four techniques of solver/board.py guarantee: each placement puts
 * a digit that was a candidate into an empty cell, the eliminations leave the
 * grid alone and strictly shrink the candidate dictionary, and every step
 * lowers the pair (empty cells, total candidates) lexicographically, so a
 * loop of steps cannot run forever.
 */
module Progress {
  import opened Rules
  import opened Techniques

  // ---------------------------------------------------------------- the candidate count

  /** The 81 cells in row-major order. */
  function RowMajorCells(): (cells: seq<Cell>)
    ensures |cells| == 81
  {
    seq(81, k requires 0 <= k < 81 => CellAt(k))
  }

  /** The number of candidates m stores for the listed cells. */
  function CandsOf(m: CandidateMap, cells: seq<Cell>): nat
    decreases |cells|
  {
    if cells == [] then 0 else |Get(m, cells[0])| + CandsOf(m, cells[1..])
  }

  /** The total number of candidates stored for the 81 cells. */
  function TotalCands(m: CandidateMap): nat
  {
    CandsOf(m, RowMajorCells())
  }

  /** Every cell's stored set in m2 lies inside its stored set in m. */
  ghost predicate Narrower(m2: CandidateMap, m: CandidateMap)
  {
    forall p :: InGrid(p) ==> Get(m2, p) <= Get(m, p)
  }

  lemma {:induction false} NarrowerOf(m2: CandidateMap, m: CandidateMap, cells: seq<Cell>, q: Cell)
    requires Narrower(m2, m) && InGrid(q) && forall k :: 0 <= k < |cells| ==> InGrid(cells[k])
    decreases |cells|
    ensures CandsOf(m2, cells) <= CandsOf(m, cells)
    ensures q in cells && Get(m2, q) != Get(m, q) ==> CandsOf(m2, cells) < CandsOf(m, cells)
  {
    if cells != [] {
      var rest := cells[1..];
      assert forall k :: 0 <= k < |rest| ==> rest[k] == cells[k + 1];
      NarrowerOf(m2, m, rest, q);
      SubsetCard(Get(m2, cells[0]), Get(m, cells[0]));
      assert q in cells ==> q == cells[0] || q in rest;
    }
  }

  /** Narrowing the dictionary never raises the total. */
  lemma NarrowerTotal(m2: CandidateMap, m: CandidateMap)
    requires Narrower(m2, m)
    ensures TotalCands(m2) <= TotalCands(m)
  {
    NarrowerOf(m2, m, RowMajorCells(), (0, 0));
  }

  /** Narrowing the dictionary at one cell strictly lowers the total. */
  lemma NarrowerTotalAt(m2: CandidateMap, m: CandidateMap, q: Cell)
    requires Narrower(m2, m) && InGrid(q) && Get(m2, q) != Get(m, q)
    ensures TotalCands(m2) < TotalCands(m)
  {
    CellAtIndex(q);
    assert RowMajorCells()[9 * q.0 + q.1] == q;
    NarrowerOf(m2, m, RowMajorCells(), q);
  }

  /** An elimination that removes something lowers the total candidate count. */
  lemma EliminateLowersTotal(s: Puzzle, row: int, ds: set<int>, skip: set<int>)
    requires IsGrid(s.grid) && 0 <= row < 9 && Shrinks(s, row, ds, skip)
    ensures TotalCands(Eliminate(s, row, ds, skip)) < TotalCands(s.cands)
  {
    var r := Eliminate(s, row, ds, skip);
    EliminateEffect(s, row, ds, skip);
    var j :| 0 <= j < 9 && j !in skip && s.grid[row][j] == 0 && (row, j) in s.cands && s.cands[(row, j)] * ds != {};
    ShrinkCard(s.cands[(row, j)], ds);
    assert Get(r, (row, j)) == s.cands[(row, j)] - ds;
    NarrowerTotalAt(r, s.cands, (row, j));
  }

  /**
   * r is what the elimination of the digits ds from the row's cells outside
   * the columns skip left of the dictionary of s: the same keys, no set
   * gained a digit, only digits of ds left and only cells of that row outside
   * skip lost any, none of those cells holds a digit of ds any more, the
   * total candidate count dropped and the dictionary is still coherent.
   */
  ghost predicate EliminatedFrom(s: Puzzle, r: CandidateMap, row: int, ds: set<int>, skip: set<int>)
    requires IsGrid(s.grid)
  {
    r.Keys == s.cands.Keys &&
    (forall p :: p in r ==> r[p] <= s.cands[p] && s.cands[p] - r[p] <= ds) &&
    (forall p :: p in r && r[p] != s.cands[p] ==> p.0 == row && p.1 !in skip) &&
    (forall j :: 0 <= j < 9 && j !in skip ==> Get(r, (row, j)) * ds == {}) &&
    TotalCands(r) < TotalCands(s.cands) &&
    Coherent(Puzzle(s.grid, r))
  }

  /** An elimination that removes something does what EliminatedFrom says. */
  lemma EliminationEffect(s: Puzzle, row: int, ds: set<int>, skip: set<int>)
    requires Coherent(s) && 0 <= row < 9 && Shrinks(s, row, ds, skip)
    ensures EliminatedFrom(s, Eliminate(s, row, ds, skip), row, ds, skip)
  {
    var r := Eliminate(s, row, ds, skip);
    EliminateEffect(s, row, ds, skip);
    EliminateKeepsCoherent(s, row, ds, skip);
    EliminateLowersTotal(s, row, ds, skip);
    forall j | 0 <= j < 9 && j !in skip ensures Get(r, (row, j)) * ds == {} {
      if (row, j) in r {
        assert s.grid[row][j] == 0;
      }
    }
  }

  // ---------------------------------------------------------------- placements

  /**
   * A placement of a candidate: cell p goes from 0 to the digit v, no other
   * cell changes, one empty cell fewer remains, the filled cells stay, a
   * consistent grid stays consistent and the rebuilt dictionary is coherent.
   */
  lemma PlacementEffect(s: Puzzle, p: Cell, v: int)
    requires Coherent(s) && p in s.cands && v in s.cands[p]
    ensures InGrid(p) && 1 <= v <= 9 && s.grid[p.0][p.1] == 0
    ensures var n := Fill(s, p, v);
      n.grid[p.0][p.1] == v &&
      (forall r, c :: 0 <= r < 9 && 0 <= c < 9 && (r, c) != p ==> n.grid[r][c] == s.grid[r][c]) &&
      EmptyCount(n.grid) == EmptyCount(s.grid) - 1 &&
      Extends(s.grid, n.grid) &&
      (Consistent(s.grid) ==> Consistent(n.grid)) &&
      Coherent(n)
  {
    var g := Place(s.grid, p.0, p.1, v);
    PlaceEmptyCount(s.grid, p.0, p.1, v);
    RebuildIsCoherent(g);
    if Consistent(s.grid) {
      PlaceKeepsConsistent(s.grid, p.0, p.1, v);
    }
  }

  /**
   * solve_single_candidate, when it applies: a cell whose stored set has
   * exactly one member receives that member, and the step records the cell
   * and the digit.
   */
  lemma SingleCandidateEffect(s: Puzzle)
    requires Coherent(s) && SingleCandidateRule(s).Applied?
    ensures var o := SingleCandidateRule(s);
      o.step.SingleCandidate? && o.step.pos in s.cands && s.cands[o.step.pos] == {o.step.value} &&
      InGrid(o.step.pos) && o.next == Fill(s, o.step.pos, o.step.value)
  {
    var f := SingleFlags(s.cands);
    var p := FirstSet(f, 0, 0).value;
    assert f[p.0][p.1];
  }

  /** What the scan over the single-candidate flags finds is a single-candidate cell with none before it. */
  lemma SingleScanFirst(cands: CandidateMap)
    requires FirstSet(SingleFlags(cands), 0, 0).Some?
    ensures var p := FirstSet(SingleFlags(cands), 0, 0).value;
      InGrid(p) && IsSingle(cands, p) &&
      forall i, j :: 0 <= i < 9 && 0 <= j < 9 && Before((i, j), p.0, p.1) ==> !IsSingle(cands, (i, j))
  {
    var f := SingleFlags(cands);
    FirstSetIsFirst(f, 0, 0);
    var p := FirstSet(f, 0, 0).value;
    assert f[p.0][p.1];
    forall i, j | 0 <= i < 9 && 0 <= j < 9 && Before((i, j), p.0, p.1) ensures !IsSingle(cands, (i, j)) {
      assert !f[i][j];
    }
  }

  /** The cell single candidate fills is the first one, in row-major order, whose stored set has one member. */
  lemma SingleCandidateFirst(s: Puzzle)
    requires IsGrid(s.grid) && SingleCandidateRule(s).Applied?
    ensures var p := SingleCandidateRule(s).step.pos;
      InGrid(p) && IsSingle(s.cands, p) &&
      forall i, j :: 0 <= i < 9 && 0 <= j < 9 && Before((i, j), p.0, p.1) ==> !IsSingle(s.cands, (i, j))
  {
    SingleScanFirst(s.cands);
    assert SingleCandidateRule(s).step.pos == FirstSet(SingleFlags(s.cands), 0, 0).value;
  }

  /** Placing n in the one place unit u has for it: that cell holds n among its candidates and receives it. */
  lemma PlaceUniqueEffect(s: Puzzle, u: int, n: int)
    requires IsGrid(s.grid) && 0 <= u < 27 && UniqueIn(s, u, n)
    ensures var o := PlaceUnique(s, u, n);
      o.step.SinglePosition? && o.step.value == n && InGrid(o.step.pos) && o.step.pos in s.cands && n in s.cands[o.step.pos] &&
      o.next == Fill(s, o.step.pos, n) && Positions(s, u, n, 9) == [o.step.pos]
  {
    var ps := Positions(s, u, n, 9);
    assert ps == [ps[0]];
  }

  /**
   * solve_single_position, when it applies: some row, column or box has
   * exactly one empty cell holding the digit among its candidates, and the
   * technique fills that cell with that digit and records both.
   */
  lemma SinglePositionEffect(s: Puzzle)
    requires IsGrid(s.grid) && SinglePositionRule(s).Applied?
    ensures var o := SinglePositionRule(s);
      o.step.SinglePosition? && InGrid(o.step.pos) && o.step.pos in s.cands && o.step.value in s.cands[o.step.pos] &&
      o.next == Fill(s, o.step.pos, o.step.value) &&
      exists u :: 0 <= u < 27 && Positions(s, u, o.step.value, 9) == [o.step.pos]
  {
    var (u, i) := FirstSet(UniqueFlags(s), 0, 0).value;
    assert SinglePositionRule(s) == PlaceUniqueIf(s, u, i + 1);
    assert UniqueIn(s, u, i + 1);
    PlaceUniqueEffect(s, u, i + 1);
  }
  // ---------------------------------------------------------------- eliminations

  /** The record of the naked pair in columns c1 < c2 of the row: its two cells and its two digits in ascending order. */
  lemma PairRecord(s: Puzzle, row: int, c1: int, c2: int)
    requires IsGrid(s.grid) && IsNakedPair(s, row, c1, c2)
    ensures var o := PairElimination(s, row, c1, c2);
      o.step == NakedPairs((row, c1), (row, c2), o.step.low, o.step.high) && o.step.low < o.step.high &&
      Get(s.cands, (row, c1)) == {o.step.low, o.step.high} && Get(s.cands, (row, c2)) == {o.step.low, o.step.high}
  {
  }

  /** solve_naked_pairs, when it applies, eliminates a naked pair whose digits still occur elsewhere in its row. */
  lemma NakedPairsFound(s: Puzzle)
    requires IsGrid(s.grid) && NakedPairsRule(s).Applied?
    ensures exists row, c1, c2 ::
      IsNakedPair(s, row, c1, c2) && Shrinks(s, row, Get(s.cands, (row, c2)), {c1, c2}) &&
      NakedPairsRule(s) == PairElimination(s, row, c1, c2)
  {
    var (row, c1, c2) := PairScan(s, 0, 0, map[]).value;
    assert NakedPairsRule(s) == PairElimination(s, row, c1, c2);
  }

  /**
   * What a naked-pair elimination o does to s: two empty cells of one row
   * hold the same two candidates, and the two digits leave the row's other
   * empty cells. The grid is untouched, no set gains a digit, only the pair's
   * digits are removed, some set strictly shrinks, and afterwards no other
   * cell of the row holds either digit.
   */
  ghost predicate PairEliminated(s: Puzzle, o: Outcome)
    requires IsGrid(s.grid)
  {
    o.Applied? && o.step.NakedPairs? &&
    var row := o.step.first.0;
    var c1 := o.step.first.1;
    var c2 := o.step.second.1;
    var pair := Get(s.cands, (row, c2));
    IsNakedPair(s, row, c1, c2) && o.step.second.0 == row && o.step.low < o.step.high &&
    pair == {o.step.low, o.step.high} &&
    o.next.grid == s.grid && EliminatedFrom(s, o.next.cands, row, pair, {c1, c2})
  }

  /** The elimination of a naked pair whose digits still occur elsewhere in its row does what PairEliminated says. */
  lemma PairEliminationEffect(s: Puzzle, row: int, c1: int, c2: int)
    requires Coherent(s) && IsNakedPair(s, row, c1, c2) && Shrinks(s, row, Get(s.cands, (row, c2)), {c1, c2})
    ensures PairEliminated(s, PairElimination(s, row, c1, c2))
  {
    PairRecord(s, row, c1, c2);
    EliminationEffect(s, row, Get(s.cands, (row, c2)), {c1, c2});
  }

  /** solve_naked_pairs, when it applies, is such an elimination. */
  lemma NakedPairsEffect(s: Puzzle)
    requires Coherent(s) && NakedPairsRule(s).Applied?
    ensures PairEliminated(s, NakedPairsRule(s))
  {
    NakedPairsFound(s);
    var row, c1, c2 :| IsNakedPair(s, row, c1, c2) && Shrinks(s, row, Get(s.cands, (row, c2)), {c1, c2}) &&
      NakedPairsRule(s) == PairElimination(s, row, c1, c2);
    PairEliminationEffect(s, row, c1, c2);
  }

  /**
   * The row scan of solve_naked_pairs, started at (row, col) with the pairs
   * dictionary it has built so far, finds something when a naked pair in
   * columns c1 < c2 of row r0 would shrink another cell of that row, provided
   * the scan has not yet passed column c2 of row r0 and, once past c1, has
   * the pair's sorted tuple in its dictionary.
   */
  lemma {:induction false} PairScanFinds(s: Puzzle, row: int, col: int, pairs: map<(int, int), int>, r0: int, c1: int, c2: int)
    requires IsGrid(s.grid) && PairsOk(s, row, col, pairs)
    requires IsNakedPair(s, r0, c1, c2) && Shrinks(s, r0, Get(s.cands, (r0, c2)), {c1, c2})
    requires row < r0 || (row == r0 && col <= c2)
    requires row == r0 && c1 < col ==> Ordered(Get(s.cands, (r0, c2))) in pairs
    decreases 9 - row, 9 - col, 1
    ensures PairScan(s, row, col, pairs).Some?
  {
    if col == 9 {
      PairScanFinds(s, row + 1, 0, map[], r0, c1, c2);
    } else if s.grid[row][col] != 0 || |Get(s.cands, (row, col))| != 2 {
      PairScanFinds(s, row, col + 1, pairs, r0, c1, c2);
    } else {
      PairScanFindsAtPair(s, row, col, pairs, r0, c1, c2);
    }
  }

  /** PairScanFinds at an empty cell with two candidates. */
  lemma {:induction false} PairScanFindsAtPair(s: Puzzle, row: int, col: int, pairs: map<(int, int), int>, r0: int, c1: int, c2: int)
    requires IsGrid(s.grid) && PairsOk(s, row, col, pairs) && row < 9 && col < 9
    requires s.grid[row][col] == 0 && |Get(s.cands, (row, col))| == 2
    requires IsNakedPair(s, r0, c1, c2) && Shrinks(s, r0, Get(s.cands, (r0, c2)), {c1, c2})
    requires row < r0 || (row == r0 && col <= c2)
    requires row == r0 && c1 < col ==> Ordered(Get(s.cands, (r0, c2))) in pairs
    decreases 9 - row, 9 - col, 0
    ensures PairScan(s, row, col, pairs).Some?
  {
    var c := Get(s.cands, (row, col));
    var key := Ordered(c);
    if row == r0 && col == c2 {
      PairScanFindsAtSecond(s, pairs, r0, c1, c2);
    } else if key in pairs {
      if !Shrinks(s, row, c, {pairs[key], col}) {
        PairScanFinds(s, row, col + 1, pairs, r0, c1, c2);
      }
    } else {
      assert row == r0 && col == c1 ==> key == Ordered(Get(s.cands, (r0, c2)));
      PairScanFinds(s, row, col + 1, pairs[key := col], r0, c1, c2);
    }
  }

  /** Arrived at column c2 of row r0, the scan stops there. */
  lemma PairScanFindsAtSecond(s: Puzzle, pairs: map<(int, int), int>, r0: int, c1: int, c2: int)
    requires IsGrid(s.grid) && IsNakedPair(s, r0, c1, c2) && PairsOk(s, r0, c2, pairs)
    requires Shrinks(s, r0, Get(s.cands, (r0, c2)), {c1, c2}) && Ordered(Get(s.cands, (r0, c2))) in pairs
    ensures PairScan(s, r0, c2, pairs).Some?
  {
    var key := Ordered(Get(s.cands, (r0, c2)));
    PairShrinksFromFirst(s, r0, pairs[key], c1, c2);
  }

  /**
   * The pairs dictionary may hold an earlier column c0 than c1 for the same
   * pair; the removal relative to c0 and c2 still shrinks a cell: the one the
   * removal relative to c1 and c2 shrinks, or else c1 itself.
   */
  lemma PairShrinksFromFirst(s: Puzzle, r0: int, c0: int, c1: int, c2: int)
    requires IsGrid(s.grid) && IsNakedPair(s, r0, c1, c2) && Shrinks(s, r0, Get(s.cands, (r0, c2)), {c1, c2})
    requires 0 <= c0 < c2 && s.grid[r0][c0] == 0 && Get(s.cands, (r0, c0)) == Get(s.cands, (r0, c2))
    ensures Shrinks(s, r0, Get(s.cands, (r0, c2)), {c0, c2})
  {
    var pair := Get(s.cands, (r0, c2));
    var j :| 0 <= j < 9 && j !in {c1, c2} && s.grid[r0][j] == 0 && (r0, j) in s.cands && s.cands[(r0, j)] * pair != {};
    if j == c0 {
      NonEmpty(pair);
      var x :| x in pair;
      assert (r0, c1) in s.cands && x in s.cands[(r0, c1)] * pair;
      assert c1 !in {c0, c2};
    } else {
      assert j !in {c0, c2};
    }
  }

  /**
   * The converse of NakedPairsFound: a naked pair in a row whose digits still
   * occur in another empty cell of that row makes solve_naked_pairs apply.
   */
  lemma NakedPairsComplete(s: Puzzle, row: int, c1: int, c2: int)
    requires IsGrid(s.grid) && IsNakedPair(s, row, c1, c2) && Shrinks(s, row, Get(s.cands, (row, c2)), {c1, c2})
    ensures NakedPairsRule(s).Applied?
  {
    PairScanFinds(s, 0, 0, map[], row, c1, c2);
  }

  /** Every cell of ps lies in one of the columns cols. */
  predicate InColumns(ps: seq<Cell>, cols: set<int>)
  {
    forall k :: 0 <= k < |ps| ==> ps[k].1 in cols
  }

  /** The places of a digit in box b lie in the box's columns. */
  lemma {:induction false} PositionsInBox(s: Puzzle, b: int, n: int, i: int)
    requires IsGrid(s.grid) && 0 <= b < 9 && 0 <= i <= 9
    ensures InColumns(Positions(s, 18 + b, n, i), BoxCols(b))
  {
    if i > 0 {
      var prev := Positions(s, 18 + b, n, i - 1);
      PositionsInBox(s, b, n, i - 1);
      var p := UnitCell(18 + b, i - 1);
      var d := (i - 1) - BoxStart(i - 1);
      assert p.1 == 3 * (b - BoxStart(b)) + d && (d == 0 || d == 1 || d == 2);
      assert p.1 in BoxCols(b);
      var ps := prev + (if Holds(s, p, n) then [p] else []);
      assert Positions(s, 18 + b, n, i) == ps;
      forall k | 0 <= k < |ps| ensures ps[k].1 in BoxCols(b) {
        if k < |prev| {
          assert ps[k] == prev[k];
        } else {
          assert ps[k] == p;
        }
      }
    }
  }

  /**
   * The reduction box b and digit n allow: the places of n in the box lie in
   * one row and in the box's columns, and n leaves that row's empty cells
   * outside the box's columns; the grid stays.
   */
  lemma ReductionEffect(s: Puzzle, b: int, n: int)
    requires Coherent(s) && 0 <= b < 9 && ReducesIn(s, b, n)
    ensures var o := Reduction(s, b, n);
      var ps := Positions(s, 18 + b, n, 9);
      o.step == BlockLineReduction(ps, n) && SameRow(ps) && InColumns(ps, BoxCols(b)) &&
      o.next.grid == s.grid && EliminatedFrom(s, o.next.cands, ps[0].0, {n}, BoxCols(b))
  {
    var ps := Positions(s, 18 + b, n, 9);
    EliminationEffect(s, ps[0].0, {n}, BoxCols(b));
    PositionsInBox(s, b, n, 9);
  }

  /** solve_block_line_reduction, when it applies, is the reduction of the first box and digit that allow one. */
  lemma BlockLineFound(s: Puzzle)
    requires IsGrid(s.grid) && BlockLineRule(s).Applied?
    ensures exists b, n :: 0 <= b < 9 && 1 <= n <= 9 && ReducesIn(s, b, n) && BlockLineRule(s) == Reduction(s, b, n)
  {
    var (b, i) := FirstSet(ReductionFlags(s), 0, 0).value;
    assert BlockLineRule(s) == ReductionIf(s, b, i + 1);
  }

  /**
   * What a block/line reduction o does to s: the digit's places in some box
   * share one row and lie in the box's columns, the record holds them and the
   * digit, the grid is untouched, and the digit leaves only that row's empty
   * cells outside the box, all of which lose it.
   */
  ghost predicate Reduced(s: Puzzle, o: Outcome)
    requires IsGrid(s.grid)
  {
    o.Applied? && o.step.BlockLineReduction? &&
    var ps := o.step.positions;
    var n := o.step.value;
    SameRow(ps) && o.next.grid == s.grid &&
    exists b :: 0 <= b < 9 && ps == Positions(s, 18 + b, n, 9) && InColumns(ps, BoxCols(b)) &&
      EliminatedFrom(s, o.next.cands, ps[0].0, {n}, BoxCols(b))
  }

  /** solve_block_line_reduction, when it applies, is such a reduction. */
  lemma BlockLineEffect(s: Puzzle)
    requires Coherent(s) && BlockLineRule(s).Applied?
    ensures Reduced(s, BlockLineRule(s))
  {
    BlockLineFound(s);
    var b, n :| 0 <= b < 9 && 1 <= n <= 9 && ReducesIn(s, b, n) && BlockLineRule(s) == Reduction(s, b, n);
    ReductionEffect(s, b, n);
  }

  // ---------------------------------------------------------------- solve_step

  /** The step records of the two techniques that fill a cell. */
  predicate IsPlacement(step: Step)
  {
    step.SingleCandidate? || step.SinglePosition?
  }

  /**
   * What a successful step must do: keep the dictionary coherent, keep every
   * filled cell, keep a consistent grid consistent, and make progress: a
   * placement leaves one empty cell fewer, an elimination keeps the grid and
   * lowers the total candidate count.
   */
  ghost predicate Sound(s: Puzzle, o: Outcome)
    requires IsGrid(s.grid)
  {
    o.Applied? && Coherent(o.next) && Extends(s.grid, o.next.grid) &&
    (Consistent(s.grid) ==> Consistent(o.next.grid)) &&
    (IsPlacement(o.step) ==> EmptyCount(o.next.grid) == EmptyCount(s.grid) - 1) &&
    (!IsPlacement(o.step) ==> o.next.grid == s.grid && TotalCands(o.next.cands) < TotalCands(s.cands))
  }

  /** A step that keeps the grid and lowers the candidate count is sound. */
  lemma EliminationSound(s: Puzzle, o: Outcome)
    requires IsGrid(s.grid) && o.Applied? && !IsPlacement(o.step) && Coherent(o.next)
    requires o.next.grid == s.grid && TotalCands(o.next.cands) < TotalCands(s.cands)
    ensures Sound(s, o)
  {
  }

  lemma PairEliminationSound(s: Puzzle, row: int, c1: int, c2: int)
    requires Coherent(s) && IsNakedPair(s, row, c1, c2) && Shrinks(s, row, Get(s.cands, (row, c2)), {c1, c2})
    ensures Sound(s, PairElimination(s, row, c1, c2))
  {
    EliminationEffect(s, row, Get(s.cands, (row, c2)), {c1, c2});
    EliminationSound(s, PairElimination(s, row, c1, c2));
  }

  lemma ReductionSound(s: Puzzle, b: int, n: int)
    requires Coherent(s) && 0 <= b < 9 && ReducesIn(s, b, n)
    ensures Sound(s, Reduction(s, b, n))
  {
    var ps := Positions(s, 18 + b, n, 9);
    EliminationEffect(s, ps[0].0, {n}, BoxCols(b));
    EliminationSound(s, Reduction(s, b, n));
  }

  lemma SingleCandidateSound(s: Puzzle)
    requires Coherent(s) && SingleCandidateRule(s).Applied?
    ensures Sound(s, SingleCandidateRule(s))
  {
    SingleCandidateEffect(s);
    var o := SingleCandidateRule(s);
    PlacementEffect(s, o.step.pos, o.step.value);
  }

  lemma SinglePositionSound(s: Puzzle)
    requires Coherent(s) && SinglePositionRule(s).Applied?
    ensures Sound(s, SinglePositionRule(s))
  {
    SinglePositionEffect(s);
    var o := SinglePositionRule(s);
    PlacementEffect(s, o.step.pos, o.step.value);
  }

  lemma NakedPairsSound(s: Puzzle)
    requires Coherent(s) && NakedPairsRule(s).Applied?
    ensures Sound(s, NakedPairsRule(s))
  {
    NakedPairsFound(s);
    var row, c1, c2 :| IsNakedPair(s, row, c1, c2) && Shrinks(s, row, Get(s.cands, (row, c2)), {c1, c2}) &&
      NakedPairsRule(s) == PairElimination(s, row, c1, c2);
    PairEliminationSound(s, row, c1, c2);
  }

  lemma BlockLineSound(s: Puzzle)
    requires Coherent(s) && BlockLineRule(s).Applied?
    ensures Sound(s, BlockLineRule(s))
  {
    BlockLineFound(s);
    var b, n :| 0 <= b < 9 && 1 <= n <= 9 && ReducesIn(s, b, n) && BlockLineRule(s) == Reduction(s, b, n);
    ReductionSound(s, b, n);
  }

  /** Every successful solve_step is sound, whichever technique made it. */
  lemma StepEffect(s: Puzzle)
    requires Coherent(s) && StepRule(s).Applied?
    ensures Sound(s, StepRule(s))
  {
    if SingleCandidateRule(s).Applied? {
      SingleCandidateSound(s);
    } else if SinglePositionRule(s).Applied? {
      SinglePositionSound(s);
    } else if NakedPairsRule(s).Applied? {
      NakedPairsSound(s);
    } else {
      BlockLineSound(s);
    }
  }

  /** The progress order: fewer empty cells, or as many and fewer candidates. */
  predicate Progressed(s2: Puzzle, s: Puzzle)
    requires IsGrid(s.grid) && IsGrid(s2.grid)
  {
    EmptyCount(s2.grid) < EmptyCount(s.grid) ||
    (EmptyCount(s2.grid) == EmptyCount(s.grid) && TotalCands(s2.cands) < TotalCands(s.cands))
  }

  /** Every successful step moves down the progress order; the number of empty cells never increases. */
  lemma StepProgress(s: Puzzle)
    requires Coherent(s) && StepRule(s).Applied?
    ensures IsGrid(StepRule(s).next.grid) && Progressed(StepRule(s).next, s)
    ensures EmptyCount(StepRule(s).next.grid) <= EmptyCount(s.grid)
  {
    StepEffect(s);
  }

  // ---------------------------------------------------------------- a solved grid

  lemma {:induction false} NoPositions(s: Puzzle, u: int, n: int, i: int)
    requires IsGrid(s.grid) && 0 <= u < 27 && 0 <= i <= 9 && s.cands == map[]
    ensures Positions(s, u, n, i) == []
  {
    if i > 0 {
      NoPositions(s, u, n, i - 1);
    }
  }

  lemma {:induction false} PairScanNone(s: Puzzle, row: int, col: int, pairs: map<(int, int), int>)
    requires IsGrid(s.grid) && PairsOk(s, row, col, pairs) && s.cands == map[]
    decreases 9 - row, 9 - col
    ensures PairScan(s, row, col, pairs) == None
  {
    if row < 9 {
      if col == 9 {
        PairScanNone(s, row + 1, 0, map[]);
      } else {
        PairScanNone(s, row, col + 1, pairs);
      }
    }
  }

  /** On a solved grid the dictionary is empty and no technique applies, so solve_step reports failure. */
  lemma SolvedIsStuck(s: Puzzle)
    requires Coherent(s) && Full(s.grid)
    ensures s.cands == map[] && StepRule(s) == NotApplicable
  {
    assert s.cands.Keys == {};
    SingleNone(s.cands);
    forall u, n | 0 <= u < 27 ensures Positions(s, u, n, 9) == [] {
      NoPositions(s, u, n, 9);
    }
    SinglePositionNone(s);
    PairScanNone(s, 0, 0, map[]);
    BlockLineNone(s);
  }
}
