// What the three reducers report, stated over the bitmap, and the reference
// definition of the square search as a fold over the cells in row-major order.

module Reductions {
  import opened Grids

  datatype Option<T> = None | Some(value: T)

  /** The four reported coordinates: start row, start column, end row, end column. */
  datatype Span = Span(startRow: int, startCol: int, endRow: int, endCol: int)

  /** C's value of a relational expression. */
  function BoolToInt(b: bool): (v: int)
    ensures v == 0 || v == 1
    ensures v == 1 <==> b
  {
    if b then 1 else 0
  }

  /** The branchless `val0*(val0<val1) + val1*(val1<=val0)` is the minimum. */
  function Smaller(val0: int, val1: int): (s: int)
    ensures s <= val0 && s <= val1
    ensures s == val0 || s == val1
  {
    val0 * BoolToInt(val0 < val1) + val1 * BoolToInt(val1 <= val0)
  }

  // ---------------------------------------------------------------------
  // Longest horizontal and vertical line

  /**
   * `res` is what the horizontal search reports: nothing iff the bitmap has
   * no 1; otherwise a run of 1s inside one row, bounded by 0s or the edge,
   * no row holds a longer run, and every run as long ends later in
   * row-major order.
   */
  ghost predicate LongestRowRun(g: Grid, res: Option<Span>)
    requires g.WellFormed()
  {
    match res
    case None => NoOnes(g)
    case Some(s) =>
      var len := s.endCol - s.startCol + 1;
      s.startRow == s.endRow && len >= 1 &&
      RowOnes(g, s.endRow, s.startCol, s.endCol) &&
      (s.startCol > 0 ==> Cell(g, s.endRow, s.startCol - 1) == 0) &&
      (s.endCol + 1 < g.width ==> Cell(g, s.endRow, s.endCol + 1) == 0) &&
      (forall r, c0, c1 :: RowOnes(g, r, c0, c1) ==> c1 - c0 + 1 <= len) &&
      (forall r, c0, c1 :: RowOnes(g, r, c0, c1) && Before(r, c1, s.endRow, s.endCol) ==>
         c1 - c0 + 1 < len)
  }

  /** The same for the vertical search, with runs inside one column. */
  ghost predicate LongestColRun(g: Grid, res: Option<Span>)
    requires g.WellFormed()
  {
    match res
    case None => NoOnes(g)
    case Some(s) =>
      var len := s.endRow - s.startRow + 1;
      s.startCol == s.endCol && len >= 1 &&
      ColOnes(g, s.endCol, s.startRow, s.endRow) &&
      (s.startRow > 0 ==> Cell(g, s.startRow - 1, s.endCol) == 0) &&
      (s.endRow + 1 < g.height ==> Cell(g, s.endRow + 1, s.endCol) == 0) &&
      (forall c, r0, r1 :: ColOnes(g, c, r0, r1) ==> r1 - r0 + 1 <= len) &&
      (forall c, r0, r1 :: ColOnes(g, c, r0, r1) && Before(r1, c, s.endRow, s.endCol) ==>
         r1 - r0 + 1 < len)
  }

  /**
   * A largest `left` value v at (y, x), first in row-major order, is the end
   * of a longest horizontal line; v == 0 everywhere means there is none.
   */
  lemma LongestRowFromRuns(g: Grid, y: int, x: int, v: int)
    requires g.WellFormed() && v >= 0
    requires v > 0 ==> 0 <= y < g.height && 0 <= x < g.width && Left(g, y, x) == v
    requires forall r: nat, c: nat :: r < g.height && c < g.width ==>
      Left(g, r, c) <= v && (Before(r, c, y, x) ==> Left(g, r, c) < v)
    ensures LongestRowRun(g, if v == 0 then None else Some(Span(y, x - v + 1, y, x)))
  {
    if v == 0 {
      forall r: nat, c: nat | r < g.height && c < g.width
        ensures Cell(g, r, c) == 0
      {
        LeftIsRun(g, r, c);
      }
    } else {
      LeftIsRun(g, y, x);
      if x + 1 < g.width {
        // a 1 right of (y, x) would extend the run to v + 1
        assert Left(g, y, x + 1) <= v;
      }
      forall r, c0, c1 | RowOnes(g, r, c0, c1)
        ensures c1 - c0 + 1 <= v && (Before(r, c1, y, x) ==> c1 - c0 + 1 < v)
      {
        if c0 <= c1 {
          LeftAtLeast(g, r, c1, c1 - c0 + 1);
        }
      }
    }
  }

  /** The same for `up` values and vertical lines. */
  lemma LongestColFromRuns(g: Grid, y: int, x: int, v: int)
    requires g.WellFormed() && v >= 0
    requires v > 0 ==> 0 <= y < g.height && 0 <= x < g.width && Up(g, y, x) == v
    requires forall r: nat, c: nat :: r < g.height && c < g.width ==>
      Up(g, r, c) <= v && (Before(r, c, y, x) ==> Up(g, r, c) < v)
    ensures LongestColRun(g, if v == 0 then None else Some(Span(y - v + 1, x, y, x)))
  {
    if v == 0 {
      forall r: nat, c: nat | r < g.height && c < g.width
        ensures Cell(g, r, c) == 0
      {
        UpIsRun(g, r, c);
      }
    } else {
      UpIsRun(g, y, x);
      if y + 1 < g.height {
        // a 1 below (y, x) would extend the run to v + 1
        assert Up(g, y + 1, x) <= v;
      }
      forall c, r0, r1 | ColOnes(g, c, r0, r1)
        ensures r1 - r0 + 1 <= v && (Before(r1, c, y, x) ==> r1 - r0 + 1 < v)
      {
        if r0 <= r1 {
          UpAtLeast(g, r1, c, r1 - r0 + 1);
        }
      }
    }
  }

  // ---------------------------------------------------------------------
  // Square search

  /** The tracked best square: side (0 for none) and its bottom-right corner. */
  datatype Best = Best(side: nat, row: int, col: int)

  /** `min(up, left)` at (r, c), the only side a square ending there is tried at. */
  ghost function Bound(g: Grid, r: nat, c: nat): (k: nat)
    requires g.WellFormed() && r < g.height && c < g.width
    ensures k <= r + 1 && k <= c + 1
  {
    Smaller(Up(g, r, c), Left(g, r, c))
  }

  /** The two extra lookups: top row and left column of the side-k square ending at (r, c). */
  ghost predicate Accepts(g: Grid, r: nat, c: nat, k: nat)
    requires g.WellFormed() && r < g.height && c < g.width
    requires 1 <= k <= r + 1 && k <= c + 1
  {
    Left(g, r - k + 1, c) >= k && Up(g, r, c - k + 1) >= k
  }

  /** The visit of cell (r, c): it replaces `b` only with a strictly larger square ending there. */
  ghost function SquareStep(g: Grid, b: Best, r: nat, c: nat): (n: Best)
    requires g.WellFormed() && r < g.height && c < g.width
    ensures n.side >= b.side
    ensures n != b ==>
      n.side > b.side && n.row == r && n.col == c && n.side == Bound(g, r, c) && Accepts(g, r, c, n.side)
    ensures n == b <==> Bound(g, r, c) <= b.side || !Accepts(g, r, c, Bound(g, r, c))
  {
    var smaller := Bound(g, r, c);
    if smaller <= b.side then b
    else if Accepts(g, r, c, smaller) then Best(smaller, r, c)
    else b
  }

  ghost predicate ScanPoint(g: Grid, r: nat, c: nat)
  {
    r <= g.height && c <= g.width && (r == g.height ==> c == 0)
  }

  /** The tracked best square once every cell before (r, c) in row-major order is visited. */
  ghost function SquareScan(g: Grid, r: nat, c: nat): Best
    requires g.WellFormed() && ScanPoint(g, r, c)
    decreases r, c
  {
    if c > 0 then SquareStep(g, SquareScan(g, r, c - 1), r, c - 1)
    else if r > 0 then SquareScan(g, r - 1, g.width)
    else Best(0, -1, -1)
  }

  /** What the square search reports for the tracked best. */
  function SquareReport(b: Best): (res: Option<Span>)
    ensures res.Some? <==> b.side > 0
    ensures res.Some? ==>
      res.value.endRow == b.row && res.value.endCol == b.col &&
      res.value.endRow - res.value.startRow + 1 == b.side &&
      res.value.endCol - res.value.startCol + 1 == b.side
  {
    if b.side == 0 then None
    else Some(Span(b.row - b.side + 1, b.col - b.side + 1, b.row, b.col))
  }

  /**
   * The square the search tries at (r, c) passes: the outline of the square
   * of side min(up, left) whose bottom-right corner is (r, c) is all 1.
   */
  ghost predicate Candidate(g: Grid, r: int, c: int)
    requires g.WellFormed()
  {
    0 <= r < g.height && 0 <= c < g.width &&
    var k := Bound(g, r, c);
    k >= 1 && FrameOnes(g, r - k + 1, c - k + 1, k)
  }

  /**
   * `res` is what the square search guarantees: nothing iff the bitmap has
   * no 1; otherwise a square whose outline (not necessarily its interior)
   * is all 1, of side min(up, left) at its bottom-right corner, no tried
   * square that passes is larger, and every one as large ends later in
   * row-major order.
   */
  ghost predicate SquareFound(g: Grid, res: Option<Span>)
    requires g.WellFormed()
  {
    match res
    case None => NoOnes(g)
    case Some(s) =>
      var side := s.endRow - s.startRow + 1;
      s.endCol - s.startCol + 1 == side &&
      FrameOnes(g, s.startRow, s.startCol, side) &&
      side == Bound(g, s.endRow, s.endCol) &&
      (forall r, c :: Candidate(g, r, c) ==> Bound(g, r, c) <= side) &&
      (forall r, c :: Candidate(g, r, c) && Before(r, c, s.endRow, s.endCol) ==> Bound(g, r, c) < side)
  }

  /** Every cell strictly before (r, c) in row-major order is 0. */
  ghost predicate ZeroBefore(g: Grid, r: int, c: int)
    requires g.WellFormed()
  {
    forall r': nat, c': nat :: r' < g.height && c' < g.width && Before(r', c', r, c) ==> Cell(g, r', c') == 0
  }

  /** The tracked best is a square that was accepted at an already visited cell. */
  lemma {:induction false} SquareScanSound(g: Grid, r: nat, c: nat)
    requires g.WellFormed() && ScanPoint(g, r, c)
    ensures var b := SquareScan(g, r, c);
      (b.side == 0 ==> b.row == -1 && b.col == -1) &&
      (b.side > 0 ==>
         0 <= b.row < g.height && 0 <= b.col < g.width && Before(b.row, b.col, r, c) &&
         b.side == Bound(g, b.row, b.col) && Accepts(g, b.row, b.col, b.side))
    decreases r, c
  {
    if c > 0 {
      SquareScanSound(g, r, c - 1);
    } else if r > 0 {
      SquareScanSound(g, r - 1, g.width);
    }
  }

  /** The tracked side stays 0 exactly as long as only 0s have been visited. */
  lemma {:induction false} SquareScanZero(g: Grid, r: nat, c: nat)
    requires g.WellFormed() && ScanPoint(g, r, c)
    ensures SquareScan(g, r, c).side == 0 <==> ZeroBefore(g, r, c)
    decreases r, c
  {
    if c > 0 {
      SquareScanZero(g, r, c - 1);
      var prev := SquareScan(g, r, c - 1);
      var x := c - 1;
      if prev.side == 0 && Cell(g, r, x) == 1 {
        assert r > 0 ==> Cell(g, r - 1, x) == 0;
        assert Up(g, r, x) == 1;
        assert x > 0 ==> Cell(g, r, x - 1) == 0;
        assert Left(g, r, x) == 1;
        assert SquareScan(g, r, c).side == 1;
        assert !ZeroBefore(g, r, c);
      }
    } else if r > 0 {
      SquareScanZero(g, r - 1, g.width);
      assert ZeroBefore(g, r, 0) <==> ZeroBefore(g, r - 1, g.width);
    }
  }

  /** The tracked side never decreases along the scan. */
  lemma {:induction false} SquareScanMonotone(g: Grid, r1: nat, c1: nat, r2: nat, c2: nat)
    requires g.WellFormed() && ScanPoint(g, r1, c1) && ScanPoint(g, r2, c2)
    requires Before(r1, c1, r2, c2) || (r1 == r2 && c1 == c2)
    ensures SquareScan(g, r1, c1).side <= SquareScan(g, r2, c2).side
    decreases r2, c2
  {
    if r1 == r2 && c1 == c2 {
    } else if c2 > 0 {
      SquareScanMonotone(g, r1, c1, r2, c2 - 1);
    } else {
      SquareScanMonotone(g, r1, c1, r2 - 1, g.width);
    }
  }

  /** The search's own test at (r, c) is the outline test of Candidate. */
  lemma CandidateAccepts(g: Grid, r: nat, c: nat)
    requires g.WellFormed() && r < g.height && c < g.width
    ensures Candidate(g, r, c) <==> Bound(g, r, c) >= 1 && Accepts(g, r, c, Bound(g, r, c))
  {
    var k := Bound(g, r, c);
    if k >= 1 {
      FrameIffRuns(g, r, c, k);
    }
  }

  /**
   * No passing square tried before (r, c) is larger than `b`, and those as
   * large as it come after it.
   */
  ghost predicate LargestSoFar(g: Grid, b: Best, r: int, c: int)
    requires g.WellFormed()
  {
    forall r', c' :: Candidate(g, r', c') && Before(r', c', r, c) ==>
      Bound(g, r', c') <= b.side && (Before(r', c', b.row, b.col) ==> Bound(g, r', c') < b.side)
  }

  /** Visiting (r, x) keeps the tracked best the first largest passing square. */
  lemma LargestStep(g: Grid, prev: Best, r: nat, x: nat)
    requires g.WellFormed() && r < g.height && x < g.width
    requires LargestSoFar(g, prev, r, x) && Before(prev.row, prev.col, r, x)
    ensures LargestSoFar(g, SquareStep(g, prev, r, x), r, x + 1)
  {
    var k := Bound(g, r, x);
    var b := SquareStep(g, prev, r, x);
    CandidateAccepts(g, r, x);
    forall r', c' | Candidate(g, r', c') && Before(r', c', r, x + 1)
      ensures Bound(g, r', c') <= b.side && (Before(r', c', b.row, b.col) ==> Bound(g, r', c') < b.side)
    {
      if Before(r', c', r, x) {
        assert Bound(g, r', c') <= prev.side && (Before(r', c', prev.row, prev.col) ==> Bound(g, r', c') < prev.side);
      } else {
        assert r' == r && c' == x;
      }
    }
  }

  /** The tracked best is the first largest of the passing squares tried so far. */
  lemma {:induction false} SquareScanLargest(g: Grid, r: nat, c: nat)
    requires g.WellFormed() && ScanPoint(g, r, c)
    ensures LargestSoFar(g, SquareScan(g, r, c), r, c)
    decreases r, c
  {
    if c > 0 {
      SquareScanLargest(g, r, c - 1);
      SquareScanSound(g, r, c - 1);
      var prev := SquareScan(g, r, c - 1);
      assert Before(prev.row, prev.col, r, c - 1);
      LargestStep(g, prev, r, c - 1);
    } else if r > 0 {
      SquareScanLargest(g, r - 1, g.width);
      LargestNextRow(g, SquareScan(g, r - 1, g.width), r - 1);
    }
  }

  /** Passing the end of row r is reaching the start of row r + 1. */
  lemma LargestNextRow(g: Grid, b: Best, r: nat)
    requires g.WellFormed() && LargestSoFar(g, b, r, g.width)
    ensures LargestSoFar(g, b, r + 1, 0)
  {
    forall r', c' | Candidate(g, r', c') && Before(r', c', r + 1, 0)
      ensures Bound(g, r', c') <= b.side && (Before(r', c', b.row, b.col) ==> Bound(g, r', c') < b.side)
    {
      assert Before(r', c', r, g.width);
    }
  }

  /** After the whole scan, the report satisfies SquareFound. */
  lemma SquareScanFound(g: Grid)
    requires g.WellFormed()
    ensures SquareFound(g, SquareReport(SquareScan(g, g.height, 0)))
  {
    var b := SquareScan(g, g.height, 0);
    SquareScanSound(g, g.height, 0);
    if b.side > 0 {
      SquareScanLargest(g, g.height, 0);
      ReportFound(g, b);
    } else {
      SquareScanZero(g, g.height, 0);
      assert NoOnes(g) by {
        forall r: nat, c: nat | r < g.height && c < g.width
          ensures Cell(g, r, c) == 0
        {
          assert Before(r, c, g.height, 0);
        }
      }
    }
  }

  /** A passing, first largest tracked best is reported as a SquareFound square. */
  lemma ReportFound(g: Grid, b: Best)
    requires g.WellFormed() && b.side > 0 && 0 <= b.row < g.height && 0 <= b.col < g.width
    requires b.side == Bound(g, b.row, b.col) && Accepts(g, b.row, b.col, b.side)
    requires LargestSoFar(g, b, g.height, 0)
    ensures SquareFound(g, SquareReport(b))
  {
    FrameIffRuns(g, b.row, b.col, b.side);
    forall r', c' | Candidate(g, r', c')
      ensures Bound(g, r', c') <= b.side && (Before(r', c', b.row, b.col) ==> Bound(g, r', c') < b.side)
    {
      assert Before(r', c', g.height, 0);
    }
  }

  // ---------------------------------------------------------------------
  // Each guarantee determines the report completely

  /** Two reports that are both LongestRowRun of the same bitmap are the same report. */
  lemma LongestRowRunUnique(g: Grid, a: Option<Span>, b: Option<Span>)
    requires g.WellFormed() && LongestRowRun(g, a) && LongestRowRun(g, b)
    ensures a == b
  {
    if a.Some? {
      assert Cell(g, a.value.endRow, a.value.endCol) == 1;
    }
    if b.Some? {
      assert Cell(g, b.value.endRow, b.value.endCol) == 1;
    }
    if a.Some? && b.Some? {
      var s, t := a.value, b.value;
      assert RowOnes(g, s.endRow, s.startCol, s.endCol) && RowOnes(g, t.endRow, t.startCol, t.endCol);
    }
  }

  /** Two reports that are both LongestColRun of the same bitmap are the same report. */
  lemma LongestColRunUnique(g: Grid, a: Option<Span>, b: Option<Span>)
    requires g.WellFormed() && LongestColRun(g, a) && LongestColRun(g, b)
    ensures a == b
  {
    if a.Some? {
      assert Cell(g, a.value.endRow, a.value.endCol) == 1;
    }
    if b.Some? {
      assert Cell(g, b.value.endRow, b.value.endCol) == 1;
    }
    if a.Some? && b.Some? {
      var s, t := a.value, b.value;
      assert ColOnes(g, s.endCol, s.startRow, s.endRow) && ColOnes(g, t.endCol, t.startRow, t.endRow);
    }
  }

  /** Two reports that are both SquareFound of the same bitmap are the same report. */
  lemma SquareFoundUnique(g: Grid, a: Option<Span>, b: Option<Span>)
    requires g.WellFormed() && SquareFound(g, a) && SquareFound(g, b)
    ensures a == b
  {
    if a.Some? {
      assert Cell(g, a.value.endRow, a.value.endCol) == 1;
    }
    if b.Some? {
      assert Cell(g, b.value.endRow, b.value.endCol) == 1;
    }
    if a.Some? && b.Some? {
      var s, t := a.value, b.value;
      assert Candidate(g, s.endRow, s.endCol) && Candidate(g, t.endRow, t.endCol);
    }
  }
}
