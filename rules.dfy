/**
 * Grid geometry and the candidate rule of the solving engine (solver/board.py):
 * the 9x9 grid as a value, the placement check of is_valid, the candidate set
 * of get_candidates, the whole candidate map that initialize_candidates builds,
 * and the counts used to measure progress.
 */
module Rules {

  datatype Option<T> = None | Some(value: T)

  /** A (row, column) coordinate; rows and columns are numbered 0..8. */
  type Cell = (int, int)

  /** Nine rows of nine integers; 0 marks an empty cell. */
  type Grid = seq<seq<int>>

  predicate IsGrid(g: Grid)
  {
    |g| == 9 && forall r :: 0 <= r < 9 ==> |g[r]| == 9
  }

  predicate InGrid(p: Cell)
  {
    0 <= p.0 < 9 && 0 <= p.1 < 9
  }

  /** The digits a cell may hold. */
  const Digits: set<int> := set n | 1 <= n <= 9

  /** Every coordinate of the grid. */
  const AllCells: set<Cell> := set r, c | 0 <= r < 9 && 0 <= c < 9 :: (r, c)

  /** The grid SudokuBoard starts from when it is given none. */
  function EmptyGrid(): (g: Grid)
    ensures IsGrid(g) && forall r, c :: 0 <= r < 9 && 0 <= c < 9 ==> g[r][c] == 0
  {
    seq(9, _ => seq(9, _ => 0))
  }

  /** Two grids with the same cells are the same grid. */
  lemma GridExt(g: Grid, h: Grid)
    requires IsGrid(g) && IsGrid(h)
    requires forall r, c :: 0 <= r < 9 && 0 <= c < 9 ==> g[r][c] == h[r][c]
    ensures g == h
  {
    forall r | 0 <= r < 9 ensures g[r] == h[r] {
    }
  }

  /** Which band of three rows (or stack of three columns) row (or column) i lies in: i // 3, by cases. */
  function Third(i: int): (t: int)
    requires 0 <= i < 9
    ensures 0 <= t < 3 && 3 * t <= i < 3 * t + 3
  {
    if i < 3 then 0 else if i < 6 then 1 else 2
  }

  /** First row (or column) of the 3x3 box that row (or column) i belongs to: 3 * (i // 3). */
  function BoxStart(i: int): (s: int)
    requires 0 <= i < 9
    ensures 0 <= s <= i < s + 3 <= 9
  {
    3 * Third(i)
  }

  /** The case split agrees with integer division. */
  lemma ThirdIsDivision(i: int)
    requires 0 <= i < 9
    ensures Third(i) == i / 3 && BoxStart(i) == 3 * (i / 3)
  {
  }

  /** The grid with cell (r, c) set to v. */
  function Place(g: Grid, r: int, c: int, v: int): (h: Grid)
    requires IsGrid(g) && 0 <= r < 9 && 0 <= c < 9
    ensures IsGrid(h) && h[r][c] == v
    ensures forall i, j :: 0 <= i < 9 && 0 <= j < 9 && (i, j) != (r, c) ==> h[i][j] == g[i][j]
  {
    g[r := g[r][c := v]]
  }

  /** The three checks of is_valid: num occurs nowhere in the row, the column or the box of (row, col). */
  predicate IsValid(g: Grid, row: int, col: int, num: int)
    requires IsGrid(g) && 0 <= row < 9 && 0 <= col < 9
  {
    (forall j :: 0 <= j < 9 ==> g[row][j] != num) &&
    (forall i :: 0 <= i < 9 ==> g[i][col] != num) &&
    (forall i, j :: BoxStart(row) <= i < BoxStart(row) + 3 && BoxStart(col) <= j < BoxStart(col) + 3 ==> g[i][j] != num)
  }

  /**
   * The candidates of get_candidates: nothing for a filled cell, otherwise the
   * digits 1..9 that no cell of the row, the column or the box already holds.
   */
  function Candidates(g: Grid, row: int, col: int): set<int>
    requires IsGrid(g) && 0 <= row < 9 && 0 <= col < 9
  {
    if g[row][col] != 0 then {} else set n | 1 <= n <= 9 && IsValid(g, row, col, n)
  }

  /** A digit is a candidate exactly when the cell is empty and is_valid accepts the digit there. */
  lemma CandidateIffValid(g: Grid, row: int, col: int, n: int)
    requires IsGrid(g) && 0 <= row < 9 && 0 <= col < 9
    ensures n in Candidates(g, row, col) <==> g[row][col] == 0 && 1 <= n <= 9 && IsValid(g, row, col, n)
  {
  }

  /** Candidates are digits, and a filled cell has none. */
  lemma CandidatesAreDigits(g: Grid, row: int, col: int)
    requires IsGrid(g) && 0 <= row < 9 && 0 <= col < 9
    ensures Candidates(g, row, col) <= Digits
    ensures g[row][col] != 0 ==> Candidates(g, row, col) == {}
  {
    forall n | n in Candidates(g, row, col) ensures n in Digits {
      CandidateIffValid(g, row, col, n);
    }
  }

  /**
   * The candidate map initialize_candidates builds on an empty dictionary:
   * its keys are exactly the empty cells, each mapped to its candidates.
   */
  ghost function Rebuild(g: Grid): map<Cell, set<int>>
    requires IsGrid(g)
  {
    map p | p in AllCells && InGrid(p) && g[p.0][p.1] == 0 :: Candidates(g, p.0, p.1)
  }

  /** The rebuilt map's keys are exactly the empty cells, each mapped to its candidates. */
  lemma RebuildIs(g: Grid)
    requires IsGrid(g)
    ensures forall p :: p in Rebuild(g) <==> InGrid(p) && g[p.0][p.1] == 0
    ensures forall p :: p in Rebuild(g) ==> Rebuild(g)[p] == Candidates(g, p.0, p.1)
  {
    forall p | InGrid(p) ensures p in AllCells {
    }
  }

  /** Cell p comes before (r, c) in row-major order. */
  predicate Before(p: Cell, r: int, c: int)
  {
    p.0 < r || (p.0 == r && p.1 < c)
  }

  /**
   * The map the row-major scan of initialize_candidates has added when it
   * reaches cell (r, c) (column c may be 9, the end of row r): each empty cell
   * before (r, c), with its candidates.
   */
  function RebuildBefore(g: Grid, r: int, c: int): map<Cell, set<int>>
    requires IsGrid(g) && 0 <= r <= 9 && 0 <= c <= 9
    decreases r, c
  {
    if c == 0 then (if r == 0 then map[] else RebuildBefore(g, r - 1, 9))
    else if r == 9 then RebuildBefore(g, r, c - 1)
    else if g[r][c - 1] == 0 then RebuildBefore(g, r, c - 1)[(r, c - 1) := Candidates(g, r, c - 1)]
    else RebuildBefore(g, r, c - 1)
  }

  /**
   * When it reaches (r, c), the scan holds cell p exactly when p is an empty
   * cell before (r, c), and then maps it to its candidates.
   */
  lemma {:induction false} RebuildBeforeAt(g: Grid, r: int, c: int, p: Cell)
    requires IsGrid(g) && 0 <= r <= 9 && 0 <= c <= 9
    decreases r, c
    ensures p in RebuildBefore(g, r, c) <==> InGrid(p) && Before(p, r, c) && g[p.0][p.1] == 0
    ensures p in RebuildBefore(g, r, c) ==> RebuildBefore(g, r, c)[p] == Candidates(g, p.0, p.1)
  {
    if c == 0 {
      if r > 0 {
        RebuildBeforeAt(g, r - 1, 9, p);
      }
    } else {
      RebuildBeforeAt(g, r, c - 1, p);
    }
  }

  /** The full scan builds Rebuild(g). */
  lemma RebuildBeforeAll(g: Grid)
    requires IsGrid(g)
    ensures RebuildBefore(g, 9, 0) == Rebuild(g)
  {
    RebuildIs(g);
    var m := RebuildBefore(g, 9, 0);
    forall p ensures (p in m <==> p in Rebuild(g)) && (p in m ==> m[p] == Rebuild(g)[p]) {
      RebuildBeforeAt(g, 9, 0, p);
    }
    assert m.Keys == Rebuild(g).Keys;
  }

  /** Visiting cell (r, c), seen through a map a that the scan adds to. */
  lemma RebuildBeforeStep(a: map<Cell, set<int>>, g: Grid, r: int, c: int)
    requires IsGrid(g) && 0 <= r < 9 && 0 <= c < 9
    ensures g[r][c] == 0 ==> a + RebuildBefore(g, r, c + 1) == (a + RebuildBefore(g, r, c))[(r, c) := Candidates(g, r, c)]
    ensures g[r][c] != 0 ==> a + RebuildBefore(g, r, c + 1) == a + RebuildBefore(g, r, c)
  {
    if g[r][c] == 0 {
      UnionUpdate(a, RebuildBefore(g, r, c), (r, c), Candidates(g, r, c));
    }
  }

  lemma EmptyUnion(m: map<Cell, set<int>>)
    ensures map[] + m == m
  {
  }

  lemma UnionUpdate(a: map<Cell, set<int>>, b: map<Cell, set<int>>, p: Cell, v: set<int>)
    ensures a + b[p := v] == (a + b)[p := v]
  {
  }

  /** is_solved: no cell holds 0. */
  predicate Full(g: Grid)
    requires IsGrid(g)
  {
    forall r, c :: 0 <= r < 9 && 0 <= c < 9 ==> g[r][c] != 0
  }

  /** The cell with row-major index k. */
  function CellAt(k: int): (p: Cell)
    requires 0 <= k < 81
    ensures InGrid(p) && 9 * p.0 + p.1 == k
  {
    (k / 9, k % 9)
  }

  lemma CellAtIndex(p: Cell)
    requires InGrid(p)
    ensures CellAt(9 * p.0 + p.1) == p
  {
  }

  /** Number of empty cells among those with row-major index k..80. */
  function EmptyFrom(g: Grid, k: int): nat
    requires IsGrid(g) && 0 <= k <= 81
    decreases 9 * |g| - k
  {
    if k == 81 then 0
    else var p := CellAt(k); (if g[p.0][p.1] == 0 then 1 else 0) + EmptyFrom(g, k + 1)
  }

  function EmptyCount(g: Grid): nat
    requires IsGrid(g)
  {
    EmptyFrom(g, 0)
  }

  lemma {:induction false} PlaceEmptyFrom(g: Grid, r: int, c: int, v: int, k: int)
    requires IsGrid(g) && 0 <= r < 9 && 0 <= c < 9 && g[r][c] == 0 && v != 0 && 0 <= k <= 81
    ensures EmptyFrom(Place(g, r, c, v), k) == EmptyFrom(g, k) - (if k <= 9 * r + c then 1 else 0)
    decreases 81 - k
  {
    if k < 81 {
      PlaceEmptyFrom(g, r, c, v, k + 1);
      CellAtIndex((r, c));
    }
  }

  /** Filling one empty cell with a digit leaves exactly one empty cell fewer. */
  lemma PlaceEmptyCount(g: Grid, r: int, c: int, v: int)
    requires IsGrid(g) && 0 <= r < 9 && 0 <= c < 9 && g[r][c] == 0 && v != 0
    ensures EmptyCount(Place(g, r, c, v)) == EmptyCount(g) - 1
  {
    PlaceEmptyFrom(g, r, c, v, 0);
  }

  lemma {:induction false} EmptyFromZero(g: Grid, k: int)
    requires IsGrid(g) && 0 <= k <= 81
    ensures EmptyFrom(g, k) == 0 <==> forall j :: k <= j < 81 ==> g[CellAt(j).0][CellAt(j).1] != 0
    decreases 81 - k
  {
    if k < 81 {
      EmptyFromZero(g, k + 1);
    }
  }

  /** The grid is full exactly when it has no empty cell left. */
  lemma FullIffNoEmpty(g: Grid)
    requires IsGrid(g)
    ensures Full(g) <==> EmptyCount(g) == 0
  {
    EmptyFromZero(g, 0);
    if EmptyCount(g) == 0 {
      forall r, c | 0 <= r < 9 && 0 <= c < 9
        ensures g[r][c] != 0
      {
        CellAtIndex((r, c));
      }
    }
  }

  /** Two distinct cells that share a row, a column or a box. */
  predicate Peers(r1: int, c1: int, r2: int, c2: int)
    requires 0 <= r1 < 9 && 0 <= c1 < 9 && 0 <= r2 < 9 && 0 <= c2 < 9
  {
    (r1, c1) != (r2, c2) && (r1 == r2 || c1 == c2 || (Third(r1) == Third(r2) && Third(c1) == Third(c2)))
  }

  /** The grid invariant: non-zero values are pairwise distinct in every row, column and box. */
  predicate Consistent(g: Grid)
    requires IsGrid(g)
  {
    forall r1, c1, r2, c2 ::
      0 <= r1 < 9 && 0 <= c1 < 9 && 0 <= r2 < 9 && 0 <= c2 < 9 && Peers(r1, c1, r2, c2) && g[r1][c1] != 0
      ==> g[r1][c1] != g[r2][c2]
  }

  /** A value that is_valid accepts, written into an empty cell, keeps the grid consistent. */
  lemma PlaceKeepsConsistent(g: Grid, r: int, c: int, v: int)
    requires IsGrid(g) && 0 <= r < 9 && 0 <= c < 9 && g[r][c] == 0
    requires Consistent(g) && IsValid(g, r, c, v)
    ensures Consistent(Place(g, r, c, v))
  {
    var h := Place(g, r, c, v);
    forall r1, c1, r2, c2 |
      0 <= r1 < 9 && 0 <= c1 < 9 && 0 <= r2 < 9 && 0 <= c2 < 9 && Peers(r1, c1, r2, c2) && h[r1][c1] != 0
      ensures h[r1][c1] != h[r2][c2]
    {
      if (r1, c1) == (r, c) {
        PeerSeesValue(g, r, c, v, r2, c2);
      } else if (r2, c2) == (r, c) {
        PeerSeesValue(g, r, c, v, r1, c1);
      }
    }
  }

  /** A value that is_valid accepts at (r, c) occurs in no peer of (r, c). */
  lemma PeerSeesValue(g: Grid, r: int, c: int, v: int, r2: int, c2: int)
    requires IsGrid(g) && 0 <= r < 9 && 0 <= c < 9 && 0 <= r2 < 9 && 0 <= c2 < 9
    requires IsValid(g, r, c, v) && Peers(r, c, r2, c2)
    ensures g[r2][c2] != v
  {
    if r != r2 && c != c2 {
      assert BoxStart(r) <= r2 < BoxStart(r) + 3;
      assert BoxStart(c) <= c2 < BoxStart(c) + 3;
    }
  }

  /** Every cell that is filled in g0 holds the same value in g. */
  predicate Extends(g0: Grid, g: Grid)
    requires IsGrid(g0) && IsGrid(g)
  {
    forall r, c :: 0 <= r < 9 && 0 <= c < 9 && g0[r][c] != 0 ==> g[r][c] == g0[r][c]
  }
}
