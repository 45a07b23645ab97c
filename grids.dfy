// The bitmap as a value, the two run-length tables as reference
// functions of it, and what a run length means in terms of the cells.

module Grids {

  /** One bitmap symbol: 0 or 1. */
  type Bit = b: int | 0 <= b <= 1

  /** A bitmap of `height` rows of `width` cells each. */
  datatype Grid = Grid(width: nat, height: nat, rows: seq<seq<Bit>>)
  {
    ghost predicate WellFormed()
    {
      |rows| == height && forall r :: 0 <= r < |rows| ==> |rows[r]| == width
    }
  }

  /** Row-major addressing stays inside the bitmap. */
  lemma CellIndex(w: nat, h: nat, r: nat, c: nat)
    requires r < h && c < w
    ensures r * w + c < w * h
  {
    assert r * w + c < (r + 1) * w;
    assert (r + 1) * w <= h * w by {
      MulMono(r + 1, h, w);
    }
  }

  lemma MulMono(a: nat, b: nat, w: nat)
    requires a <= b
    ensures a * w <= b * w
  {
  }

  ghost function Cell(g: Grid, r: nat, c: nat): Bit
    requires g.WellFormed() && r < g.height && c < g.width
  {
    g.rows[r][c]
  }

  /** The bitmap holds no 1 at all. */
  ghost predicate NoOnes(g: Grid)
    requires g.WellFormed()
  {
    forall r: nat, c: nat :: r < g.height && c < g.width ==> Cell(g, r, c) == 0
  }

  /** Length of the run of 1s that ends at (r, c) going upward. */
  ghost function Up(g: Grid, r: nat, c: nat): (u: nat)
    requires g.WellFormed() && r < g.height && c < g.width
    ensures u <= r + 1
    decreases r
  {
    if Cell(g, r, c) == 0 then 0
    else if r == 0 then 1
    else Up(g, r - 1, c) + 1
  }

  /** Length of the run of 1s that ends at (r, c) going leftward. */
  ghost function Left(g: Grid, r: nat, c: nat): (l: nat)
    requires g.WellFormed() && r < g.height && c < g.width
    ensures l <= c + 1
    decreases c
  {
    if Cell(g, r, c) == 0 then 0
    else if c == 0 then 1
    else Left(g, r, c - 1) + 1
  }

  /** Cells (r, c0..c1) lie in the bitmap and are all 1 (empty when c0 > c1). */
  ghost predicate RowOnes(g: Grid, r: int, c0: int, c1: int)
    requires g.WellFormed()
  {
    0 <= r < g.height && 0 <= c0 && c1 < g.width &&
    forall c: nat :: c0 <= c <= c1 ==> Cell(g, r, c) == 1
  }

  /** Cells (r0..r1, c) lie in the bitmap and are all 1 (empty when r0 > r1). */
  ghost predicate ColOnes(g: Grid, c: int, r0: int, r1: int)
    requires g.WellFormed()
  {
    0 <= c < g.width && 0 <= r0 && r1 < g.height &&
    forall r: nat :: r0 <= r <= r1 ==> Cell(g, r, c) == 1
  }

  /** The outline of the side-`side` square with top-left corner (top, lft) is all 1. */
  ghost predicate FrameOnes(g: Grid, top: int, lft: int, side: int)
    requires g.WellFormed()
  {
    var bottom, right := top + side - 1, lft + side - 1;
    side >= 1 &&
    RowOnes(g, top, lft, right) && RowOnes(g, bottom, lft, right) &&
    ColOnes(g, lft, top, bottom) && ColOnes(g, right, top, bottom)
  }

  /** Row-major order of cells: (r1, c1) is scanned before (r2, c2). */
  predicate Before(r1: int, c1: int, r2: int, c2: int)
  {
    r1 < r2 || (r1 == r2 && c1 < c2)
  }

  /** The recurrence as the loader computes it, with the bit as a factor. */
  lemma UpRecurrence(g: Grid, r: nat, c: nat)
    requires g.WellFormed() && r < g.height && c < g.width
    ensures Up(g, r, c) == if r == 0 then Cell(g, r, c) else (Up(g, r - 1, c) + 1) * Cell(g, r, c)
  {
  }

  lemma LeftRecurrence(g: Grid, r: nat, c: nat)
    requires g.WellFormed() && r < g.height && c < g.width
    ensures Left(g, r, c) == if c == 0 then Cell(g, r, c) else (Left(g, r, c - 1) + 1) * Cell(g, r, c)
  {
  }

  /** The upward run at (r, c) reaches k cells iff cells (r-k+1..r, c) are all 1. */
  lemma {:induction false} UpAtLeast(g: Grid, r: nat, c: nat, k: nat)
    requires g.WellFormed() && r < g.height && c < g.width && k <= r + 1
    ensures Up(g, r, c) >= k <==> ColOnes(g, c, r - k + 1, r)
    decreases r
  {
    if k == 0 {
    } else if Cell(g, r, c) == 0 {
      assert !ColOnes(g, c, r - k + 1, r) by {
        assert r - k + 1 <= r;
      }
    } else if r == 0 {
    } else {
      UpAtLeast(g, r - 1, c, k - 1);
      if ColOnes(g, c, r - k + 1, r) {
        assert ColOnes(g, c, r - k + 1, r - 1);
      }
    }
  }

  /** The leftward run at (r, c) reaches k cells iff cells (r, c-k+1..c) are all 1. */
  lemma {:induction false} LeftAtLeast(g: Grid, r: nat, c: nat, k: nat)
    requires g.WellFormed() && r < g.height && c < g.width && k <= c + 1
    ensures Left(g, r, c) >= k <==> RowOnes(g, r, c - k + 1, c)
    decreases c
  {
    if k == 0 {
    } else if Cell(g, r, c) == 0 {
      assert !RowOnes(g, r, c - k + 1, c) by {
        assert c - k + 1 <= c;
      }
    } else if c == 0 {
    } else {
      LeftAtLeast(g, r, c - 1, k - 1);
      if RowOnes(g, r, c - k + 1, c) {
        assert RowOnes(g, r, c - k + 1, c - 1);
      }
    }
  }

  /** Up(g, r, c) == k: cells (r-k+1..r, c) are 1 and (r-k, c) is 0 or outside. */
  lemma UpIsRun(g: Grid, r: nat, c: nat)
    requires g.WellFormed() && r < g.height && c < g.width
    ensures var k := Up(g, r, c);
      ColOnes(g, c, r - k + 1, r) && (k <= r ==> Cell(g, r - k, c) == 0)
    ensures Up(g, r, c) == 0 <==> Cell(g, r, c) == 0
  {
    var k := Up(g, r, c);
    UpAtLeast(g, r, c, k);
    if k <= r {
      UpAtLeast(g, r, c, k + 1);
      assert Cell(g, r - k, c) == 0 by {
        if Cell(g, r - k, c) == 1 {
          assert ColOnes(g, c, r - k, r);
        }
      }
    }
  }

  /** Left(g, r, c) == k: cells (r, c-k+1..c) are 1 and (r, c-k) is 0 or outside. */
  lemma LeftIsRun(g: Grid, r: nat, c: nat)
    requires g.WellFormed() && r < g.height && c < g.width
    ensures var k := Left(g, r, c);
      RowOnes(g, r, c - k + 1, c) && (k <= c ==> Cell(g, r, c - k) == 0)
    ensures Left(g, r, c) == 0 <==> Cell(g, r, c) == 0
  {
    var k := Left(g, r, c);
    LeftAtLeast(g, r, c, k);
    if k <= c {
      LeftAtLeast(g, r, c, k + 1);
      assert Cell(g, r, c - k) == 0 by {
        if Cell(g, r, c - k) == 1 {
          assert RowOnes(g, r, c - k, c);
        }
      }
    }
  }

  /**
   * Square-outline existence reduces to four run lookups: the outline of
   * the side-v square whose bottom-right corner is (y, x) is all 1 iff the
   * bottom row and top row reach v cells leftward and the right and left
   * columns reach v cells upward.
   */
  lemma FrameIffRuns(g: Grid, y: nat, x: nat, v: nat)
    requires g.WellFormed() && y < g.height && x < g.width
    requires 1 <= v <= y + 1 && v <= x + 1
    ensures FrameOnes(g, y - v + 1, x - v + 1, v) <==>
      Up(g, y, x) >= v && Left(g, y, x) >= v &&
      Left(g, y - v + 1, x) >= v && Up(g, y, x - v + 1) >= v
  {
    UpAtLeast(g, y, x, v);
    LeftAtLeast(g, y, x, v);
    LeftAtLeast(g, y - v + 1, x, v);
    UpAtLeast(g, y, x - v + 1, v);
  }
}
