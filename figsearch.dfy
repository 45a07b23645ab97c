// The bitmap store with its in-place loader, the three scans over its run
// tables, and the three search commands and the `test` command that load a
// stream and scan it.

module FigSearch {
  import opened Grids
  import opened Stream
  import opened Reductions

  /**
   * The bitmap as the program keeps it: for every cell only its two run
   * lengths, `up` (the cell's slot 0) and `left` (slot 1). `grid` is the
   * bitmap those tables were built from.
   */
  class BitMap {
    var sizeX: int
    var sizeY: int
    var up: array2<int>
    var left: array2<int>
    ghost var grid: Grid

    /** Both tables have `sizeY` rows of `sizeX` cells and are distinct arrays. */
    ghost predicate Shaped()
      reads this
    {
      0 <= sizeX && 0 <= sizeY && up != left &&
      up.Length0 == sizeY && up.Length1 == sizeX &&
      left.Length0 == sizeY && left.Length1 == sizeX &&
      grid.width == sizeX && grid.height == sizeY && grid.WellFormed()
    }

    /** Every cell holds the run lengths of `grid`. */
    ghost predicate Valid()
      reads this, up, left
    {
      Shaped() &&
      forall r: nat, c: nat :: r < sizeY && c < sizeX ==>
        up[r, c] == Up(grid, r, c) && left[r, c] == Left(grid, r, c)
    }

    /** Every cell before (y, x) in row-major order holds the run lengths of `grid`. */
    ghost predicate FilledBefore(y: int, x: int)
      reads this, up, left
      requires Shaped()
    {
      forall r: nat, c: nat :: r < sizeY && c < sizeX && Before(r, c, y, x) ==>
        up[r, c] == Up(grid, r, c) && left[r, c] == Left(grid, r, c)
    }

    /** Record the dimensions and allocate both tables. */
    constructor (sizeX: int, sizeY: int)
      requires 0 <= sizeX && 0 <= sizeY
      ensures Shaped() && this.sizeX == sizeX && this.sizeY == sizeY
      ensures fresh(up) && fresh(left)
    {
      this.sizeX := sizeX;
      this.sizeY := sizeY;
      up := new int[sizeY, sizeX];
      left := new int[sizeY, sizeX];
      grid := Grid(sizeX, sizeY, seq(sizeY, _ => seq(sizeX, _ => 0)));
    }

    /**
     * Read bits from `input` until `sizeX * sizeY` of them are placed,
     * filling both run tables in row-major order. The status is 1 iff the
     * stream ends first; the cells it reached still hold their runs.
     */
    method Load(input: seq<char>) returns (status: int)
      requires Shaped()
      modifies this`grid, up, left
      ensures Shaped() && grid == FromStream(sizeX, sizeY, input)
      ensures status == if |Symbols(input)| < sizeX * sizeY then 1 else 0
      ensures status == 0 ==> Valid()
      ensures status == 1 ==> sizeX > 0
      ensures status == 1 ==>
        forall r: nat, c: nat ::
          (r < sizeY && c < sizeX && Before(r, c, |Symbols(input)| / sizeX, |Symbols(input)| % sizeX)) ==>
          up[r, c] == Up(grid, r, c) && left[r, c] == Left(grid, r, c)
    {
      grid := FromStream(sizeX, sizeY, input);
      var cells := sizeX * sizeY;
      var i := 0;
      var pos := 0;
      // the cell the next bit goes to
      ghost var y, x := 0, 0;
      while i < cells && pos < |input|
        modifies up, left
        invariant 0 <= pos <= |input|
        invariant Symbols(input[..pos]) <= Symbols(input) && |Symbols(input[..pos])| == i
        invariant 0 <= i <= cells
        invariant i == y * sizeX + x && 0 <= y && 0 <= x && (x < sizeX || x == 0)
        invariant FilledBefore(y, x)
        decreases |input| - pos
      {
        var bitMapBitC := input[pos];
        NextByte(input, pos);
        pos := pos + 1;
        if !(bitMapBitC == '0' || bitMapBitC == '1') {
          continue;
        }
        var bitMapBit := SymbolValue(bitMapBitC);
        var idxX := i % sizeX;
        var idxY := i / sizeX;
        DivModUnique(sizeX, y, x);
        SymbolPlacement(sizeX, sizeY, input, i);
        StoreBit(idxY, idxX, bitMapBit);
        i := i + 1;
        if x + 1 < sizeX {
          x := x + 1;
        } else {
          NextRow(sizeX, y, x);
          y, x := y + 1, 0;
        }
      }
      if i < cells {
        assert input[..pos] == input;
        DivModUnique(sizeX, y, x);
        status := 1;
      } else {
        status := 0;
        if sizeX > 0 {
          PastLastCell(sizeX, sizeY, y, x);
        }
      }
    }

    /**
     * Give cell (idxY, idxX), the next one in row-major order, its two runs
     * from the cell above and the cell to the left.
     */
    method StoreBit(idxY: nat, idxX: nat, bitMapBit: Bit)
      requires Shaped() && idxY < sizeY && idxX < sizeX && Cell(grid, idxY, idxX) == bitMapBit
      requires FilledBefore(idxY, idxX)
      modifies up, left
      ensures if idxX + 1 < sizeX then FilledBefore(idxY, idxX + 1) else FilledBefore(idxY + 1, 0)
    {
      var val0, val1;
      if idxY == 0 {
        val0 := bitMapBit;
      } else {
        val0 := (up[idxY - 1, idxX] + 1) * bitMapBit;
      }
      if idxX == 0 {
        val1 := bitMapBit;
      } else {
        val1 := (left[idxY, idxX - 1] + 1) * bitMapBit;
      }
      UpRecurrence(grid, idxY, idxX);
      LeftRecurrence(grid, idxY, idxX);
      up[idxY, idxX] := val0;
      left[idxY, idxX] := val1;
      forall r: nat, c: nat | r < sizeY && c < sizeX && (Before(r, c, idxY, idxX) || (r == idxY && c == idxX))
        ensures up[r, c] == Up(grid, r, c) && left[r, c] == Left(grid, r, c)
      {
      }
    }

    /** The longest horizontal line: largest `left`, first in row-major order. */
    method LongestHLine() returns (res: Option<Span>)
      requires Valid()
      ensures LongestRowRun(grid, res)
    {
      var longestHLineX, longestHLineY, longestHLineV := -1, -1, 0;
      for rowIdx := 0 to sizeY
        invariant longestHLineV >= 0
        invariant longestHLineV == 0 ==> longestHLineY == -1
        invariant longestHLineV > 0 ==>
          0 <= longestHLineY < sizeY && 0 <= longestHLineX < sizeX &&
          Before(longestHLineY, longestHLineX, rowIdx, 0) &&
          left[longestHLineY, longestHLineX] == longestHLineV
        invariant forall r: nat, c: nat :: r < sizeY && c < sizeX && Before(r, c, rowIdx, 0) ==>
          left[r, c] <= longestHLineV
        invariant forall r: nat, c: nat ::
          (r < sizeY && c < sizeX && Before(r, c, rowIdx, 0) && Before(r, c, longestHLineY, longestHLineX)) ==>
          left[r, c] < longestHLineV
      {
        for colIdx := 0 to sizeX
          invariant longestHLineV >= 0
          invariant longestHLineV == 0 ==> longestHLineY == -1
          invariant longestHLineV > 0 ==>
            0 <= longestHLineY < sizeY && 0 <= longestHLineX < sizeX &&
            Before(longestHLineY, longestHLineX, rowIdx, colIdx) &&
            left[longestHLineY, longestHLineX] == longestHLineV
          invariant forall r: nat, c: nat :: r < sizeY && c < sizeX && Before(r, c, rowIdx, colIdx) ==>
            left[r, c] <= longestHLineV
          invariant forall r: nat, c: nat ::
            (r < sizeY && c < sizeX && Before(r, c, rowIdx, colIdx) && Before(r, c, longestHLineY, longestHLineX)) ==>
            left[r, c] < longestHLineV
        {
          if left[rowIdx, colIdx] > longestHLineV {
            longestHLineV := left[rowIdx, colIdx];
            longestHLineX := colIdx;
            longestHLineY := rowIdx;
          }
        }
      }
      if longestHLineV == 0 {
        res := None;
      } else {
        res := Some(Span(longestHLineY, longestHLineX - longestHLineV + 1, longestHLineY, longestHLineX));
      }
      LongestRowFromRuns(grid, longestHLineY, longestHLineX, longestHLineV);
    }

    /** The longest vertical line: largest `up`, first in row-major order. */
    method LongestVLine() returns (res: Option<Span>)
      requires Valid()
      ensures LongestColRun(grid, res)
    {
      var longestVLineX, longestVLineY, longestVLineV := -1, -1, 0;
      for rowIdx := 0 to sizeY
        invariant longestVLineV >= 0
        invariant longestVLineV == 0 ==> longestVLineY == -1
        invariant longestVLineV > 0 ==>
          0 <= longestVLineY < sizeY && 0 <= longestVLineX < sizeX &&
          Before(longestVLineY, longestVLineX, rowIdx, 0) &&
          up[longestVLineY, longestVLineX] == longestVLineV
        invariant forall r: nat, c: nat :: r < sizeY && c < sizeX && Before(r, c, rowIdx, 0) ==>
          up[r, c] <= longestVLineV
        invariant forall r: nat, c: nat ::
          (r < sizeY && c < sizeX && Before(r, c, rowIdx, 0) && Before(r, c, longestVLineY, longestVLineX)) ==>
          up[r, c] < longestVLineV
      {
        for colIdx := 0 to sizeX
          invariant longestVLineV >= 0
          invariant longestVLineV == 0 ==> longestVLineY == -1
          invariant longestVLineV > 0 ==>
            0 <= longestVLineY < sizeY && 0 <= longestVLineX < sizeX &&
            Before(longestVLineY, longestVLineX, rowIdx, colIdx) &&
            up[longestVLineY, longestVLineX] == longestVLineV
          invariant forall r: nat, c: nat :: r < sizeY && c < sizeX && Before(r, c, rowIdx, colIdx) ==>
            up[r, c] <= longestVLineV
          invariant forall r: nat, c: nat ::
            (r < sizeY && c < sizeX && Before(r, c, rowIdx, colIdx) && Before(r, c, longestVLineY, longestVLineX)) ==>
            up[r, c] < longestVLineV
        {
          if up[rowIdx, colIdx] > longestVLineV {
            longestVLineV := up[rowIdx, colIdx];
            longestVLineX := colIdx;
            longestVLineY := rowIdx;
          }
        }
      }
      if longestVLineV == 0 {
        res := None;
      } else {
        res := Some(Span(longestVLineY - longestVLineV + 1, longestVLineX, longestVLineY, longestVLineX));
      }
      LongestColFromRuns(grid, longestVLineY, longestVLineX, longestVLineV);
    }

    /**
     * The square search: every cell is visited in row-major order and the
     * best square so far is carried from one visit to the next.
     */
    method LargestSquare() returns (res: Option<Span>)
      requires Valid()
      ensures res == SquareReport(SquareScan(grid, grid.height, 0))
      ensures SquareFound(grid, res)
    {
      var largestSquareX, largestSquareY, largestSquareV := -1, -1, 0;
      for rowIdx := 0 to sizeY
        invariant largestSquareV >= 0
        invariant Best(largestSquareV, largestSquareY, largestSquareX) == SquareScan(grid, rowIdx, 0)
      {
        for colIdx := 0 to sizeX
          invariant largestSquareV >= 0
          invariant Best(largestSquareV, largestSquareY, largestSquareX) == SquareScan(grid, rowIdx, colIdx)
        {
          largestSquareV, largestSquareY, largestSquareX :=
            VisitCell(rowIdx, colIdx, largestSquareV, largestSquareY, largestSquareX);
        }
      }
      ghost var final := Best(largestSquareV, largestSquareY, largestSquareX);
      assert final == SquareScan(grid, grid.height, 0);
      if largestSquareV == 0 {
        res := None;
      } else {
        res := Some(Span(largestSquareY - largestSquareV + 1, largestSquareX - largestSquareV + 1,
                         largestSquareY, largestSquareX));
      }
      assert res == SquareReport(final);
      SquareScanFound(grid);
    }

    /**
     * One visit of the square search at (rowIdx, colIdx): with `smaller =
     * min(up, left)` above the best side so far, the descending loop
     * re-tests side `smaller` (not `diagonal`), so the visit either raises
     * the best to `smaller` here or leaves it alone.
     */
    method VisitCell(rowIdx: int, colIdx: int, v: int, y: int, x: int)
      returns (v': int, y': int, x': int)
      requires Valid() && 0 <= rowIdx < sizeY && 0 <= colIdx < sizeX && v >= 0
      ensures v' >= 0
      ensures Best(v', y', x') == SquareStep(grid, Best(v, y, x), rowIdx, colIdx)
    {
      v', y', x' := v, y, x;
      var val0 := up[rowIdx, colIdx];
      var val1 := left[rowIdx, colIdx];
      var smaller := Smaller(val0, val1);
      assert smaller == Bound(grid, rowIdx, colIdx);
      if smaller <= v {
        return;
      }
      ghost var accept := left[rowIdx - smaller + 1, colIdx] >= smaller &&
                          up[rowIdx, colIdx - smaller + 1] >= smaller;
      assert accept == Accepts(grid, rowIdx, colIdx, smaller);
      var diagonal := smaller;
      while diagonal > v'
        invariant v' >= 0 && diagonal <= smaller
        invariant diagonal == smaller ==> v' == v && y' == y && x' == x
        invariant diagonal < smaller ==>
          if accept then v' == smaller && y' == rowIdx && x' == colIdx
          else v' == v && y' == y && x' == x
        decreases diagonal
      {
        if left[rowIdx - smaller + 1, colIdx] >= smaller &&
           up[rowIdx, colIdx - smaller + 1] >= smaller {
          v' := diagonal;
          x' := colIdx;
          y' := rowIdx;
        }
        diagonal := diagonal - 1;
      }
    }
  }

  /** Allocate a bitmap of `height` rows and `width` columns and load `input` into it. */
  method LoadBitMap(height: int, width: int, input: seq<char>) returns (bm: BitMap, status: int)
    requires 0 <= height && 0 <= width
    ensures fresh(bm) && fresh(bm.up) && fresh(bm.left)
    ensures bm.Shaped() && bm.sizeX == width && bm.sizeY == height
    ensures bm.grid == FromStream(width, height, input)
    ensures status == if |Symbols(input)| < width * height then 1 else 0
    ensures status == 0 ==> bm.Valid()
  {
    bm := new BitMap(width, height);
    status := bm.Load(input);
  }

  /** The `test` command: 0 iff the stream holds at least `height * width` bits. */
  method TestBitMap(height: int, width: int, input: seq<char>) returns (status: int)
    requires 0 <= height && 0 <= width
    ensures status == 0 <==> |Symbols(input)| >= width * height
    ensures status == 0 || status == 1
  {
    var bm;
    bm, status := LoadBitMap(height, width, input);
  }

  /** The `hline` command: status 1 on a short stream, else the longest horizontal line. */
  method FindHLine(height: int, width: int, input: seq<char>) returns (status: int, res: Option<Span>)
    requires 0 <= height && 0 <= width
    ensures status == 0 <==> |Symbols(input)| >= width * height
    ensures status == 1 ==> res == None
    ensures status == 0 ==> LongestRowRun(FromStream(width, height, input), res)
  {
    var bm;
    bm, status := LoadBitMap(height, width, input);
    if status == 1 {
      return 1, None;
    }
    res := bm.LongestHLine();
  }

  /** The `vline` command: status 1 on a short stream, else the longest vertical line. */
  method FindVLine(height: int, width: int, input: seq<char>) returns (status: int, res: Option<Span>)
    requires 0 <= height && 0 <= width
    ensures status == 0 <==> |Symbols(input)| >= width * height
    ensures status == 1 ==> res == None
    ensures status == 0 ==> LongestColRun(FromStream(width, height, input), res)
  {
    var bm;
    bm, status := LoadBitMap(height, width, input);
    if status == 1 {
      return 1, None;
    }
    res := bm.LongestVLine();
  }

  /** The `square` command: status 1 on a short stream, else the square the scan settles on. */
  method FindSquare(height: int, width: int, input: seq<char>) returns (status: int, res: Option<Span>)
    requires 0 <= height && 0 <= width
    ensures status == 0 <==> |Symbols(input)| >= width * height
    ensures status == 1 ==> res == None
    ensures status == 0 ==> SquareFound(FromStream(width, height, input), res)
    ensures status == 0 ==> res == SquareReport(SquareScan(FromStream(width, height, input), height, 0))
  {
    var bm;
    bm, status := LoadBitMap(height, width, input);
    if status == 1 {
      return 1, None;
    }
    res := bm.LargestSquare();
  }
}
