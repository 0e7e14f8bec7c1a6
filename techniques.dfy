/**
 * The four deduction techniques of solver/board.py, stated on values: a Puzzle
 * is the grid together with the candidate dictionary. Each technique is a scan
 * in the source's fixed order that either finds one deduction (a placement or a
 * batch of eliminations, with the step record it appends) or finds nothing.
 */
module Techniques {
  import opened Rules

  /** The candidate dictionary: each key a cell, its value the digits still allowed there. */
  type CandidateMap = map<Cell, set<int>>

  /** A step record, reduced to its kind, position(s) and value(s). */
  datatype Step =
    | SingleCandidate(pos: Cell, value: int)
    | SinglePosition(pos: Cell, value: int)
    | NakedPairs(first: Cell, second: Cell, low: int, high: int)
    | BlockLineReduction(positions: seq<Cell>, value: int)

  datatype Puzzle = Puzzle(grid: Grid, cands: CandidateMap)

  /** What one technique does to a puzzle: nothing, or one deduction and its record. */
  datatype Outcome = Applied(next: Puzzle, step: Step) | NotApplicable

  /** candidates.get(p, set()) */
  function Get(cands: CandidateMap, p: Cell): set<int>
  {
    if p in cands then cands[p] else {}
  }

  /**
   * The invariant the engine keeps between steps: the keys are exactly the
   * empty cells, and every stored digit is a digit that is_valid accepts in
   * its cell (all of them right after a rebuild, fewer after eliminations).
   */
  ghost predicate Coherent(s: Puzzle)
  {
    IsGrid(s.grid) &&
    (forall p {:trigger p in s.cands} :: p in s.cands ==> InGrid(p) && s.grid[p.0][p.1] == 0) &&
    (forall r, c :: 0 <= r < 9 && 0 <= c < 9 && s.grid[r][c] == 0 ==> (r, c) in s.cands) &&
    (forall p, n {:trigger n in s.cands[p]} :: p in s.cands && n in s.cands[p] ==> InGrid(p) && 1 <= n <= 9 && IsValid(s.grid, p.0, p.1, n))
  }

  lemma RebuildIsCoherent(g: Grid)
    requires IsGrid(g)
    ensures Coherent(Puzzle(g, Rebuild(g)))
  {
    RebuildIs(g);
    forall p, n | p in Rebuild(g) && n in Rebuild(g)[p]
      ensures 1 <= n <= 9 && IsValid(g, p.0, p.1, n)
    {
      CandidateIffValid(g, p.0, p.1, n);
    }
  }

  /** A placement as the engine makes it: write v into cell p, then rebuild the candidate dictionary. */
  ghost function Fill(s: Puzzle, p: Cell, v: int): Puzzle
    requires IsGrid(s.grid) && InGrid(p)
  {
    var g := Place(s.grid, p.0, p.1, v); Puzzle(g, Rebuild(g))
  }

  lemma SubsetCard(a: set<int>, b: set<int>)
    requires a <= b
    ensures |a| <= |b|
    ensures a != b ==> |a| < |b|
  {
    assert b == a + (b - a);
    assert a * (b - a) == {};
  }

  lemma DisjointMinus(a: set<int>, d: set<int>)
    requires a * d == {}
    ensures a - d == a
  {
    forall x | x in a ensures x !in d {
      assert x !in a * d;
    }
  }

  lemma NonEmpty(s: set<int>)
    requires s != {}
    ensures exists x :: x in s
  {
    if forall x :: x !in s {
      assert false;
    }
  }

  lemma SingletonIs(s: set<int>, v: int)
    requires |s| == 1 && v in s
    ensures s == {v}
  {
    SubsetCard({v}, s);
  }

  /** A search space: rows of nine flags, visited row by row and left to right. */
  predicate Rows9(flags: seq<seq<bool>>)
  {
    forall i :: 0 <= i < |flags| ==> |flags[i]| == 9
  }

  /**
   * The first set flag at or after (a, b): the shape of every scan in the
   * engine, which walks its search space in a fixed order and stops at the
   * first place where its technique applies.
   */
  function FirstSet(flags: seq<seq<bool>>, a: int, b: int): (r: Option<(int, int)>)
    requires Rows9(flags) && 0 <= a <= |flags| && 0 <= b <= 9
    decreases |flags| - a, 9 - b
    ensures r.Some? ==> 0 <= r.value.0 < |flags| && 0 <= r.value.1 < 9 && !Before(r.value, a, b) && flags[r.value.0][r.value.1]
  {
    if a == |flags| then None
    else if b == 9 then FirstSet(flags, a + 1, 0)
    else if flags[a][b] then Some((a, b))
    else FirstSet(flags, a, b + 1)
  }

  /** The scan from (a, b) passes only unset flags before what it finds, and finds nothing only when no flag is set. */
  lemma {:induction false} FirstSetIsFirst(flags: seq<seq<bool>>, a: int, b: int)
    requires Rows9(flags) && 0 <= a <= |flags| && 0 <= b <= 9
    decreases |flags| - a, 9 - b
    ensures FirstSet(flags, a, b).Some? ==>
      var p := FirstSet(flags, a, b).value;
      forall i, j :: 0 <= i < |flags| && 0 <= j < 9 && !Before((i, j), a, b) && Before((i, j), p.0, p.1) ==> !flags[i][j]
    ensures FirstSet(flags, a, b).None? <==> forall i, j :: 0 <= i < |flags| && 0 <= j < 9 && !Before((i, j), a, b) ==> !flags[i][j]
  {
    if a < |flags| {
      if b == 9 {
        FirstSetIsFirst(flags, a + 1, 0);
      } else if !flags[a][b] {
        FirstSetIsFirst(flags, a, b + 1);
      }
    }
  }

  /** A scan that has passed only unset flags and stands on a set one has found it. */
  lemma FirstSetAt(flags: seq<seq<bool>>, a: int, b: int)
    requires Rows9(flags) && 0 <= a < |flags| && 0 <= b < 9 && flags[a][b]
    requires forall i, j :: 0 <= i < |flags| && 0 <= j < 9 && Before((i, j), a, b) ==> !flags[i][j]
    ensures FirstSet(flags, 0, 0) == Some((a, b))
  {
    FirstSetIsFirst(flags, 0, 0);
  }

  /** A scan that has passed every flag without finding a set one finds nothing. */
  lemma FirstSetNone(flags: seq<seq<bool>>)
    requires Rows9(flags)
    requires forall i, j :: 0 <= i < |flags| && 0 <= j < 9 ==> !flags[i][j]
    ensures FirstSet(flags, 0, 0) == None
  {
    FirstSetIsFirst(flags, 0, 0);
  }

  // ---------------------------------------------------------------- single candidate

  predicate IsSingle(cands: CandidateMap, p: Cell)
  {
    p in cands && |cands[p]| == 1
  }

  /** Flag c of row r: cell (r, c) has exactly one candidate. */
  function SingleRow(cands: CandidateMap, r: int): (f: seq<bool>)
    ensures |f| == 9 && forall c :: 0 <= c < 9 ==> f[c] == IsSingle(cands, (r, c))
  {
    seq(9, c => IsSingle(cands, (r, c)))
  }

  /** Flag (r, c): cell (r, c) has exactly one candidate. */
  function SingleFlags(cands: CandidateMap): (f: seq<seq<bool>>)
    ensures |f| == 9 && Rows9(f)
  {
    seq(9, r => SingleRow(cands, r))
  }

  /** The one member of a one-element set (candidates.pop()). */
  ghost function Sole(s: set<int>): (v: int)
    requires |s| == 1
    ensures s == {v}
  {
    NonEmpty(s);
    var v :| v in s; SingletonIs(s, v); v
  }

  /** solve_single_candidate */
  ghost function SingleCandidateRule(s: Puzzle): Outcome
    requires IsGrid(s.grid)
  {
    match FirstSet(SingleFlags(s.cands), 0, 0)
    case None => NotApplicable
    case Some(p) => PlaceSole(s, p)
  }

  /** Place the one candidate of cell p there. */
  ghost function PlaceSole(s: Puzzle, p: Cell): Outcome
    requires IsGrid(s.grid) && InGrid(p) && IsSingle(s.cands, p)
  {
    var v := Sole(s.cands[p]);
    Applied(Fill(s, p, v), SingleCandidate(p, v))
  }

  /** The first single-candidate cell in row-major order is the one FirstSet finds. */
  lemma SingleFirst(cands: CandidateMap, p: Cell)
    requires InGrid(p) && IsSingle(cands, p)
    requires forall i, j :: 0 <= i < 9 && 0 <= j < 9 && Before((i, j), p.0, p.1) ==> !IsSingle(cands, (i, j))
    ensures FirstSet(SingleFlags(cands), 0, 0) == Some(p)
  {
    var f := SingleFlags(cands);
    forall i, j | 0 <= i < 9 && 0 <= j < 9 && Before((i, j), p.0, p.1) ensures !f[i][j] {
      assert !IsSingle(cands, (i, j));
    }
    FirstSetAt(f, p.0, p.1);
  }

  /** With no single-candidate cell FirstSet finds nothing. */
  lemma SingleNone(cands: CandidateMap)
    requires forall i, j :: 0 <= i < 9 && 0 <= j < 9 ==> !IsSingle(cands, (i, j))
    ensures FirstSet(SingleFlags(cands), 0, 0) == None
  {
    var f := SingleFlags(cands);
    forall i, j | 0 <= i < 9 && 0 <= j < 9 ensures !f[i][j] {
      assert !IsSingle(cands, (i, j));
    }
    FirstSetNone(f);
  }

  /** When the scan stops at cell p, whose one candidate is v, the technique places v at p. */
  lemma SingleCandidateFound(s: Puzzle, p: Cell, v: int)
    requires IsGrid(s.grid) && FirstSet(SingleFlags(s.cands), 0, 0) == Some(p) && p in s.cands && s.cands[p] == {v}
    ensures SingleCandidateRule(s) == Applied(Fill(s, p, v), SingleCandidate(p, v))
  {
    assert Sole(s.cands[p]) in {v};
  }

  // ---------------------------------------------------------------- single position

  /**
   * Cell i (0..8) of unit u: units 0..8 are the rows, 9..17 the columns and
   * 18..26 the boxes in row-major order; within a box, cells are row-major.
   */
  function UnitCell(u: int, i: int): (p: Cell)
    requires 0 <= u < 27 && 0 <= i < 9
    ensures InGrid(p)
  {
    if u < 9 then (u, i)
    else if u < 18 then (i, u - 9)
    else var b := u - 18; (BoxStart(b) + Third(i), 3 * (b - BoxStart(b)) + (i - BoxStart(i)))
  }

  /** An empty cell whose stored candidates include n. */
  predicate Holds(s: Puzzle, p: Cell, n: int)
    requires IsGrid(s.grid) && InGrid(p)
  {
    s.grid[p.0][p.1] == 0 && n in Get(s.cands, p)
  }

  /** The positions list: the cells among the first i of unit u that hold n, in unit order. */
  function Positions(s: Puzzle, u: int, n: int, i: int): (ps: seq<Cell>)
    requires IsGrid(s.grid) && 0 <= u < 27 && 0 <= i <= 9
    ensures forall k :: 0 <= k < |ps| ==> InGrid(ps[k]) && Holds(s, ps[k], n)
  {
    if i == 0 then []
    else
      var p := UnitCell(u, i - 1);
      Positions(s, u, n, i - 1) + (if Holds(s, p, n) then [p] else [])
  }

  /** In unit u, digit n fits exactly one cell. */
  predicate UniqueIn(s: Puzzle, u: int, n: int)
    requires IsGrid(s.grid) && 0 <= u < 27
  {
    |Positions(s, u, n, 9)| == 1
  }

  /** Flag (u, i): in unit u, digit i + 1 fits exactly one cell. */
  function UniqueFlags(s: Puzzle): (f: seq<seq<bool>>)
    requires IsGrid(s.grid)
    ensures |f| == 27 && Rows9(f)
  {
    seq(27, u requires 0 <= u < 27 => seq(9, i => UniqueIn(s, u, i + 1)))
  }

  /** solve_single_position */
  ghost function SinglePositionRule(s: Puzzle): Outcome
    requires IsGrid(s.grid)
  {
    match FirstSet(UniqueFlags(s), 0, 0)
    case None => NotApplicable
    case Some((u, i)) => PlaceUniqueIf(s, u, i + 1)
  }

  /** Digit n goes into the one place unit u has for it, if it has exactly one. */
  ghost function PlaceUniqueIf(s: Puzzle, u: int, n: int): Outcome
    requires IsGrid(s.grid) && 0 <= u < 27
  {
    if UniqueIn(s, u, n) then PlaceUnique(s, u, n) else NotApplicable
  }

  /** Digit n goes into the one place unit u has for it. */
  ghost function PlaceUnique(s: Puzzle, u: int, n: int): Outcome
    requires IsGrid(s.grid) && 0 <= u < 27 && UniqueIn(s, u, n)
  {
    var p := Positions(s, u, n, 9)[0];
    Applied(Fill(s, p, n), SinglePosition(p, n))
  }

  /** The scan stops at the first unit u and digit n with a unique place, and places n there. */
  lemma SinglePositionAt(s: Puzzle, u: int, n: int)
    requires IsGrid(s.grid) && 0 <= u < 27 && 1 <= n <= 9 && UniqueIn(s, u, n)
    requires forall u', n' :: 0 <= u' < 27 && 1 <= n' <= 9 && Before((u', n'), u, n) ==> !UniqueIn(s, u', n')
    ensures SinglePositionRule(s) == PlaceUnique(s, u, n)
  {
    UniqueFirst(s, u, n);
  }

  lemma UniqueFirst(s: Puzzle, u: int, n: int)
    requires IsGrid(s.grid) && 0 <= u < 27 && 1 <= n <= 9 && UniqueIn(s, u, n)
    requires forall u', n' :: 0 <= u' < 27 && 1 <= n' <= 9 && Before((u', n'), u, n) ==> !UniqueIn(s, u', n')
    ensures FirstSet(UniqueFlags(s), 0, 0) == Some((u, n - 1))
  {
    var f := UniqueFlags(s);
    forall i, j | 0 <= i < 27 && 0 <= j < 9 && Before((i, j), u, n - 1) ensures !f[i][j] {
      assert !UniqueIn(s, i, j + 1);
    }
    FirstSetAt(f, u, n - 1);
  }

  /** With no unit and digit that has a unique place the technique does not apply. */
  lemma SinglePositionNone(s: Puzzle)
    requires IsGrid(s.grid)
    requires forall u, n :: 0 <= u < 27 && 1 <= n <= 9 ==> !UniqueIn(s, u, n)
    ensures SinglePositionRule(s) == NotApplicable
  {
    var f := UniqueFlags(s);
    forall i, j | 0 <= i < 27 && 0 <= j < 9 ensures !f[i][j] {
      assert !UniqueIn(s, i, j + 1);
    }
    FirstSetNone(f);
  }

  // ---------------------------------------------------------------- eliminations

  /** The columns k..8. */
  function ColsFrom(k: int): (r: set<int>)
    requires 0 <= k <= 9
    decreases 9 - k
    ensures forall j :: j in r <==> k <= j < 9
  {
    if k == 9 then {} else {k} + ColsFrom(k + 1)
  }

  /** A cell of the row whose stored set an elimination in that row may shrink: empty and not skipped. */
  predicate Affected(s: Puzzle, row: int, skip: set<int>, p: Cell)
    requires IsGrid(s.grid) && 0 <= row < 9
  {
    p.0 == row && 0 <= p.1 < 9 && p.1 !in skip && s.grid[row][p.1] == 0
  }

  /** Some affected cell of the row still holds one of the digits ds (the "removed" flag). */
  predicate Shrinks(s: Puzzle, row: int, ds: set<int>, skip: set<int>)
    requires IsGrid(s.grid) && 0 <= row < 9
  {
    exists j :: 0 <= j < 9 && j !in skip && s.grid[row][j] == 0 && (row, j) in s.cands && s.cands[(row, j)] * ds != {}
  }

  /** Removing the digits ds from every empty cell of the row whose column is not skipped. */
  function Eliminate(s: Puzzle, row: int, ds: set<int>, skip: set<int>): (r: CandidateMap)
    requires IsGrid(s.grid) && 0 <= row < 9
    ensures r.Keys == s.cands.Keys
  {
    map p | p in s.cands :: if Affected(s, row, skip, p) then s.cands[p] - ds else s.cands[p]
  }

  /**
   * What an elimination does: only affected cells change, each loses only
   * digits of ds, nothing more of ds is left to remove, and the dictionary
   * differs from the input exactly when something was removed.
   */
  lemma EliminateEffect(s: Puzzle, row: int, ds: set<int>, skip: set<int>)
    requires IsGrid(s.grid) && 0 <= row < 9
    ensures var r := Eliminate(s, row, ds, skip);
      (forall p :: p in r ==> r[p] <= s.cands[p] && s.cands[p] - r[p] <= ds) &&
      (forall p :: p in r && r[p] != s.cands[p] ==> Affected(s, row, skip, p)) &&
      !Shrinks(Puzzle(s.grid, r), row, ds, skip) &&
      (r == s.cands <==> !Shrinks(s, row, ds, skip))
  {
    var r := Eliminate(s, row, ds, skip);
    if !Shrinks(s, row, ds, skip) {
      forall p | p in s.cands ensures r[p] == s.cands[p] {
        if Affected(s, row, skip, p) {
          assert p == (row, p.1);
          assert s.cands[(row, p.1)] * ds == {};
          DisjointMinus(s.cands[p], ds);
        }
      }
    } else {
      var j :| 0 <= j < 9 && j !in skip && s.grid[row][j] == 0 && (row, j) in s.cands && s.cands[(row, j)] * ds != {};
      NonEmpty(s.cands[(row, j)] * ds);
      var x :| x in s.cands[(row, j)] * ds;
      assert x !in r[(row, j)];
    }
  }

  /** Removing d from a makes it smaller exactly when they share a digit. */
  lemma ShrinkCard(a: set<int>, d: set<int>)
    ensures |a - d| < |a| <==> a * d != {}
    ensures a * d == {} ==> a - d == a
  {
    if a * d != {} {
      NonEmpty(a * d);
      var x :| x in a * d;
      assert x !in a - d;
      SubsetCard(a - d, a);
    } else {
      DisjointMinus(a, d);
    }
  }

  /** With every column skipped, the elimination changes nothing and nothing shrinks. */
  lemma EliminateNothing(s: Puzzle, row: int, ds: set<int>, skip: set<int>)
    requires IsGrid(s.grid) && 0 <= row < 9
    requires forall j :: 0 <= j < 9 ==> j in skip
    ensures Eliminate(s, row, ds, skip) == s.cands && !Shrinks(s, row, ds, skip)
  {
    EliminateEffect(s, row, ds, skip);
  }

  /**
   * One column of the elimination loop: un-skipping column k of the row adds the
   * update of cell (row, k) when it is empty and loses a digit of ds, and nothing else.
   */
  lemma EliminateStep(s: Puzzle, row: int, ds: set<int>, skip: set<int>, k: int)
    requires IsGrid(s.grid) && 0 <= row < 9 && 0 <= k < 9
    requires s.grid[row][k] == 0 ==> (row, k) in s.cands
    ensures var e0 := Eliminate(s, row, ds, skip + ColsFrom(k));
      (row, k) in s.cands ==> e0[(row, k)] == s.cands[(row, k)]
    ensures var e0 := Eliminate(s, row, ds, skip + ColsFrom(k));
      var a := Get(s.cands, (row, k));
      var hit := k !in skip && s.grid[row][k] == 0 && |a - ds| < |a|;
      Eliminate(s, row, ds, skip + ColsFrom(k + 1)) == (if hit then e0[(row, k) := a - ds] else e0) &&
      (Shrinks(s, row, ds, skip + ColsFrom(k + 1)) <==> Shrinks(s, row, ds, skip + ColsFrom(k)) || hit)
  {
    var e0 := Eliminate(s, row, ds, skip + ColsFrom(k));
    var e1 := Eliminate(s, row, ds, skip + ColsFrom(k + 1));
    var a := Get(s.cands, (row, k));
    var hit := k !in skip && s.grid[row][k] == 0 && |a - ds| < |a|;
    ShrinkCard(a, ds);
    var want := if hit then e0[(row, k) := a - ds] else e0;
    assert e1.Keys == want.Keys;
    forall p | p in e1 ensures e1[p] == want[p] {
      if p != (row, k) {
        assert Affected(s, row, skip + ColsFrom(k + 1), p) == Affected(s, row, skip + ColsFrom(k), p);
      }
    }
  }

  /** An elimination keeps the candidate dictionary coherent with the grid. */
  lemma EliminateKeepsCoherent(s: Puzzle, row: int, ds: set<int>, skip: set<int>)
    requires Coherent(s) && 0 <= row < 9
    ensures Coherent(Puzzle(s.grid, Eliminate(s, row, ds, skip)))
  {
    EliminateEffect(s, row, ds, skip);
  }

  // ---------------------------------------------------------------- naked pairs

  /** The two members of a two-element set in ascending order (tuple(sorted(...))). */
  ghost function Ordered(pair: set<int>): (r: (int, int))
    requires |pair| == 2
    ensures r.0 < r.1 && pair == {r.0, r.1}
  {
    NonEmpty(pair);
    var a :| a in pair;
    assert pair == (pair - {a}) + {a};
    NonEmpty(pair - {a});
    var b :| b in pair - {a};
    SubsetCard({a, b}, pair);
    if a < b then (a, b) else (b, a)
  }

  /**
   * The pairs dictionary of solve_naked_pairs while scanning row `row` before
   * column `col`: each sorted two-digit candidate tuple seen so far, mapped to
   * the first empty column of the row where it appeared.
   */
  ghost predicate PairsOk(s: Puzzle, row: int, col: int, pairs: map<(int, int), int>)
    requires IsGrid(s.grid)
  {
    0 <= row <= 9 && 0 <= col <= 9 &&
    forall k :: k in pairs ==>
      row < 9 && 0 <= pairs[k] < col && s.grid[row][pairs[k]] == 0 &&
      Get(s.cands, (row, pairs[k])) == {k.0, k.1} && k.0 < k.1
  }

  /** Two empty cells c1 < c2 of the row with the same two-digit candidate set. */
  predicate IsNakedPair(s: Puzzle, row: int, c1: int, c2: int)
    requires IsGrid(s.grid)
  {
    0 <= row < 9 && 0 <= c1 < c2 < 9 && s.grid[row][c1] == 0 && s.grid[row][c2] == 0 &&
    |Get(s.cands, (row, c2))| == 2 && Get(s.cands, (row, c1)) == Get(s.cands, (row, c2))
  }

  /**
   * The scan of solve_naked_pairs from (row, col) on: the first (row, first
   * column, second column) whose pair removes something from the rest of the row.
   */
  ghost function PairScan(s: Puzzle, row: int, col: int, pairs: map<(int, int), int>): (r: Option<(int, int, int)>)
    requires IsGrid(s.grid) && PairsOk(s, row, col, pairs)
    decreases |s.grid| - row, 9 - col
    ensures r.Some? ==> row <= r.value.0 && IsNakedPair(s, r.value.0, r.value.1, r.value.2)
    ensures r.Some? ==> Shrinks(s, r.value.0, Get(s.cands, (r.value.0, r.value.2)), {r.value.1, r.value.2})
  {
    if row == 9 then None
    else if col == 9 then PairScan(s, row + 1, 0, map[])
    else if s.grid[row][col] != 0 then PairScan(s, row, col + 1, pairs)
    else
      var c := Get(s.cands, (row, col));
      if |c| != 2 then PairScan(s, row, col + 1, pairs)
      else
        var key := Ordered(c);
        if key in pairs then
          if Shrinks(s, row, c, {pairs[key], col}) then Some((row, pairs[key], col))
          else PairScan(s, row, col + 1, pairs)
        else PairScan(s, row, col + 1, pairs[key := col])
  }

  /** solve_naked_pairs (rows only) */
  ghost function NakedPairsRule(s: Puzzle): Outcome
    requires IsGrid(s.grid)
  {
    match PairScan(s, 0, 0, map[])
    case None => NotApplicable
    case Some((row, c1, c2)) => PairElimination(s, row, c1, c2)
  }

  /** What the naked pair in columns c1 < c2 of the row does: its two digits leave the rest of the row. */
  ghost function PairElimination(s: Puzzle, row: int, c1: int, c2: int): Outcome
    requires IsGrid(s.grid) && IsNakedPair(s, row, c1, c2)
  {
    var pair := Get(s.cands, (row, c2));
    var key := Ordered(pair);
    Applied(Puzzle(s.grid, Eliminate(s, row, pair, {c1, c2})), NakedPairs((row, c1), (row, c2), key.0, key.1))
  }

  // ---------------------------------------------------------------- block/line reduction

  /** The three columns of box b. */
  function BoxCols(b: int): set<int>
    requires 0 <= b < 9
  {
    var c := 3 * (b - BoxStart(b)); {c, c + 1, c + 2}
  }

  /** A non-empty positions list whose cells all lie in the row of its first cell. */
  predicate SameRow(ps: seq<Cell>)
  {
    |ps| > 0 && forall i :: 0 <= i < |ps| ==> ps[i].0 == ps[0].0
  }

  /**
   * Box b and digit n allow a reduction: the digit's places in the box share
   * one row, and the digit is still a candidate in that row outside the box.
   */
  predicate ReducesIn(s: Puzzle, b: int, n: int)
    requires IsGrid(s.grid) && 0 <= b < 9
  {
    var ps := Positions(s, 18 + b, n, 9);
    SameRow(ps) && Shrinks(s, ps[0].0, {n}, BoxCols(b))
  }

  /** Flag (b, i): box b and digit i + 1 allow a block/line reduction. */
  function ReductionFlags(s: Puzzle): (f: seq<seq<bool>>)
    requires IsGrid(s.grid)
    ensures |f| == 9 && Rows9(f)
  {
    seq(9, b requires 0 <= b < 9 => seq(9, i => ReducesIn(s, b, i + 1)))
  }

  /** solve_block_line_reduction (row alignment only) */
  ghost function BlockLineRule(s: Puzzle): Outcome
    requires IsGrid(s.grid)
  {
    match FirstSet(ReductionFlags(s), 0, 0)
    case None => NotApplicable
    case Some((b, i)) => ReductionIf(s, b, i + 1)
  }

  /** The reduction box b and digit n allow, if they allow one. */
  ghost function ReductionIf(s: Puzzle, b: int, n: int): Outcome
    requires IsGrid(s.grid) && 0 <= b < 9
  {
    if ReducesIn(s, b, n) then Reduction(s, b, n) else NotApplicable
  }

  /** The reduction box b and digit n allow: n leaves the rest of the row its places share. */
  function Reduction(s: Puzzle, b: int, n: int): Outcome
    requires IsGrid(s.grid) && 0 <= b < 9 && ReducesIn(s, b, n)
  {
    var ps := Positions(s, 18 + b, n, 9);
    Applied(Puzzle(s.grid, Eliminate(s, ps[0].0, {n}, BoxCols(b))), BlockLineReduction(ps, n))
  }

  /** The scan stops at the first box b and digit n that allow a reduction. */
  lemma BlockLineAt(s: Puzzle, b: int, n: int)
    requires IsGrid(s.grid) && 0 <= b < 9 && 1 <= n <= 9 && ReducesIn(s, b, n)
    requires forall b', n' :: 0 <= b' < 9 && 1 <= n' <= 9 && Before((b', n'), b, n) ==> !ReducesIn(s, b', n')
    ensures BlockLineRule(s) == Reduction(s, b, n)
  {
    var f := ReductionFlags(s);
    forall i, j | 0 <= i < 9 && 0 <= j < 9 && Before((i, j), b, n - 1) ensures !f[i][j] {
      assert !ReducesIn(s, i, j + 1);
    }
    FirstSetAt(f, b, n - 1);
  }

  /** A scan past box b and digit n, neither of which allowed a reduction, has seen none. */
  lemma NoReductionBefore(s: Puzzle, b: int, n: int)
    requires IsGrid(s.grid) && 0 <= b < 9 && 1 <= n <= 9 && !ReducesIn(s, b, n)
    requires forall b', n' :: 0 <= b' < 9 && 1 <= n' <= 9 && Before((b', n'), b, n) ==> !ReducesIn(s, b', n')
    ensures forall b', n' :: 0 <= b' < 9 && 1 <= n' <= 9 && Before((b', n'), b, n + 1) ==> !ReducesIn(s, b', n')
  {
  }

  /** With no box and digit that allow a reduction the technique does not apply. */
  lemma BlockLineNone(s: Puzzle)
    requires IsGrid(s.grid)
    requires forall b, n :: 0 <= b < 9 && 1 <= n <= 9 ==> !ReducesIn(s, b, n)
    ensures BlockLineRule(s) == NotApplicable
  {
    var f := ReductionFlags(s);
    forall i, j | 0 <= i < 9 && 0 <= j < 9 ensures !f[i][j] {
      assert !ReducesIn(s, i, j + 1);
    }
    FirstSetNone(f);
  }

  // ---------------------------------------------------------------- solve_step

  /** solve_step: the four techniques in priority order; the first that applies is the step. */
  ghost function StepRule(s: Puzzle): Outcome
    requires IsGrid(s.grid)
  {
    var a := SingleCandidateRule(s);
    if a.Applied? then a
    else var b := SinglePositionRule(s);
    if b.Applied? then b
    else var c := NakedPairsRule(s);
    if c.Applied? then c
    else BlockLineRule(s)
  }
}
