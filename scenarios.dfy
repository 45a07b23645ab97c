// Worked bitmaps: what the guarantees say about particular inputs.

module Scenarios {
  import opened Grids
  import opened Reductions

  /** A 3x3 bitmap whose outline is 1 around a 0 in the middle. */
  const Hollow := Grid(3, 3, [[1, 1, 1], [1, 0, 1], [1, 1, 1]])

  /**
   * The square search reports the whole 3x3 square although its middle
   * cell is 0: only the outline is checked.
   */
  lemma HollowSquareReported()
    ensures Cell(Hollow, 1, 1) == 0
    ensures SquareReport(SquareScan(Hollow, 3, 0)) == Some(Span(0, 0, 2, 2))
  {
    var g := Hollow;
    assert Up(g, 2, 2) == 3 && Left(g, 2, 2) == 3;
    assert FrameOnes(g, 0, 0, 3);
    assert SquareFound(g, Some(Span(0, 0, 2, 2)));
    SquareScanFound(g);
    SquareFoundUnique(g, Some(Span(0, 0, 2, 2)), SquareReport(SquareScan(g, 3, 0)));
  }

  /** A 3x3 bitmap of 1s only. */
  const Full := Grid(3, 3, [[1, 1, 1], [1, 1, 1], [1, 1, 1]])

  /** On the all-1 bitmap the horizontal search can only report row 0 whole. */
  lemma FullRow(res: Option<Span>)
    requires LongestRowRun(Full, res)
    ensures res == Some(Span(0, 0, 0, 2))
  {
    assert Left(Full, 0, 2) == 3;
    assert LongestRowRun(Full, Some(Span(0, 0, 0, 2)));
    LongestRowRunUnique(Full, res, Some(Span(0, 0, 0, 2)));
  }

  /** On the all-1 bitmap the vertical search can only report column 0 whole. */
  lemma FullColumn(res: Option<Span>)
    requires LongestColRun(Full, res)
    ensures res == Some(Span(0, 0, 2, 0))
  {
    assert Up(Full, 2, 0) == 3;
    assert LongestColRun(Full, Some(Span(0, 0, 2, 0)));
    LongestColRunUnique(Full, res, Some(Span(0, 0, 2, 0)));
  }

  /** On the all-1 bitmap the square search reports the whole bitmap. */
  lemma FullSquare()
    ensures SquareReport(SquareScan(Full, 3, 0)) == Some(Span(0, 0, 2, 2))
  {
    var g := Full;
    assert Up(g, 2, 2) == 3 && Left(g, 2, 2) == 3;
    assert FrameOnes(g, 0, 0, 3);
    assert SquareFound(g, Some(Span(0, 0, 2, 2)));
    SquareScanFound(g);
    SquareFoundUnique(g, Some(Span(0, 0, 2, 2)), SquareReport(SquareScan(g, 3, 0)));
  }

  /** Two rows, 101 over 010: no two 1s touch. */
  const Checkered := Grid(3, 2, [[1, 0, 1], [0, 1, 0]])

  /**
   * A single 1 is a square of side 1, so the square search reports the
   * first 1 rather than nothing.
   */
  lemma CheckeredSquare()
    ensures SquareReport(SquareScan(Checkered, 2, 0)) == Some(Span(0, 0, 0, 0))
  {
    var g := Checkered;
    assert Up(g, 0, 0) == 1 && Left(g, 0, 0) == 1;
    assert FrameOnes(g, 0, 0, 1);
    assert SquareFound(g, Some(Span(0, 0, 0, 0)));
    SquareScanFound(g);
    SquareFoundUnique(g, Some(Span(0, 0, 0, 0)), SquareReport(SquareScan(g, 2, 0)));
  }
}
