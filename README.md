# figsearch: a verified model of the bitmap loader and its three searches

`figsearch.c` reads a bitmap: a header line `height width`, then a stream of
`'0'`/`'1'` bytes. While loading, it stores two run lengths for every cell:

- `up` is the run of 1s that ends at the cell going upward (slot `[0]`);
- `left` is the run that ends there going leftward (slot `[1]`).

Each command then scans these tables:

- `hline` finds the longest horizontal line;
- `vline` finds the longest vertical line;
- `square` finds a square;
- `test` only reports whether the stream was long enough.

`programStartType` picks the command from the arguments.

The model has six modules:

- `Grids` (grids.dfy):
  - The bitmap is a value (`Grid`).
  - `Up` and `Left` are the reference definitions of the two runs.
  - The lemmas state what a run length means in terms of the cells:
    - `UpAtLeast` and `LeftAtLeast`: a run reaches k cells iff those k cells are all 1;
    - `UpIsRun` and `LeftIsRun`: a run of length k is followed by a 0 or by the edge;
    - `FrameIffRuns`: a square outline is all 1 iff four run lookups succeed.
- `Stream` (stream.dfy):
  - `Symbols` is the sequence of bits a byte stream carries. Every byte other than `'0'` and `'1'` is skipped.
  - `FromStream` is the bitmap that a stream describes, filled row-major.
  - There are lemmas about prefixes and about where the i-th bit lands.
- `Reductions` (reductions.dfy):
  - What each search reports, stated over the bitmap: `LongestRowRun`, `LongestColRun` and `SquareFound`.
  - Uniqueness lemmas showing that each of these determines the report completely.
  - The square search's reference definition, `SquareScan`: a fold of `SquareStep` over the cells in row-major order.
- `FigSearch` (figsearch.dfy):
  - The class `BitMap`, whose two `array2<int>` tables are the slots of the C `map`.
  - Its in-place loader `Load`, modelled as a `while` loop over the byte stream.
  - The three nested-loop scans, each proved against the reference definitions.
  - The four commands: `TestBitMap`, `FindHLine`, `FindVLine` and `FindSquare`.
- `Arguments` (arguments.dfy): the mode dispatch.
- `Scenarios` (scenarios.dfy): worked bitmaps.

The model follows what `figsearch.c` does, also where that differs from what the program is meant to do:

- **No invalid symbol.** The loader has no "invalid symbol" error. Every byte other than `'0'` or `'1'` is skipped. Apart from the allocation failure left out below, the only load failure is a stream that ends before `height * width` bits have arrived (`Load`, `TestBitMap`).
- **Outline only.** The square search never looks inside the square. It accepts a square whose outline is all 1, whatever the interior holds (`HollowSquareReported`).
- **One side per cell.** The descending loop at lines 186-193 tests side `smaller` on every pass, not side `diagonal`. A cell therefore either contributes a square of side exactly `min(up, left)` or contributes nothing. The report is the first largest of these tried squares (`SquareFound`). It is not claimed to be the largest square in the bitmap.
- **A single 1 is a square.** For the bitmap `101 / 010`, the square search reports the 1x1 square at (0, 0), not "Not found" (`CheckeredSquare`).

The C program reads its input from standard input and prints its results. The model takes the bytes after the header line as the parameter `input`. It returns the reported coordinates as an `Option<Span>`, where `None` stands for "Not found". Load status 1 stands for "Failed to load the bitmap!" / "Invalid".

## Model

| member | source | states |
|---|---|---|
| Grids.Up | figsearch.c:89-90 | the upward run at (r, c) is at most r + 1 |
| Grids.Left | figsearch.c:91-92 | the leftward run at (r, c) is at most c + 1 |
| Grids.UpRecurrence | figsearch.c:89-90 | the upward run equals the bit in row 0, and (run above + 1) * bit below it: the loader's formula computes the reference run |
| Grids.LeftRecurrence | figsearch.c:91-92 | the leftward run equals the bit in column 0, and (run to the left + 1) * bit after it |
| Grids.UpAtLeast | figsearch.c:89-94 | the upward run at (r, c) is at least k iff cells (r-k+1..r, c) are all 1 |
| Grids.LeftAtLeast | figsearch.c:89-94 | the leftward run at (r, c) is at least k iff cells (r, c-k+1..c) are all 1 |
| Grids.UpIsRun | figsearch.c:89-94 | up = k means cells (r-k+1..r, c) are 1 and (r-k, c) is 0 or outside; up = 0 iff the cell is 0 |
| Grids.LeftIsRun | figsearch.c:89-94 | left = k means cells (r, c-k+1..c) are 1 and (r, c-k) is 0 or outside; left = 0 iff the cell is 0 |
| Grids.FrameIffRuns | figsearch.c:186-188 | the outline of the side-v square ending at (y, x) is all 1 iff up and left at (y, x) reach v, left at the top row reaches v, and up at the left column reaches v |
| Stream.IsSymbol | figsearch.c:85 | defines the bytes the loader keeps: exactly '0' and '1' |
| Stream.SymbolValue | figsearch.c:86 | `ch - '0'` is 1 exactly for '1' |
| Stream.Symbols | figsearch.c:84-85 | the bits of a stream are never more than its bytes |
| Stream.SymbolsAppend | figsearch.c:84-85 | the bits of a concatenation are the concatenation of the bits |
| Stream.SymbolsSkip | figsearch.c:85 | a byte other than '0' or '1' anywhere in the stream changes no bit |
| Stream.SymbolsSnoc | figsearch.c:84-86 | reading one more byte appends its value exactly when it is a symbol |
| Stream.SymbolsPrefix | figsearch.c:84 | the bits of a prefix of the stream are a prefix of its bits |
| Stream.NextByte | figsearch.c:84-86 | after one more byte, the bits read so far are still a prefix; their number grows by one iff the byte is a symbol, and that symbol is the next bit |
| Stream.Padded | figsearch.c:84-97 | the first n bits, with 0 where the stream ends early |
| Stream.FromStream | figsearch.c:84-88 | the described bitmap has the given dimensions |
| Stream.DivModUnique | figsearch.c:87-88 | row-major index r * w + c gives back row r and column c |
| Stream.RowOfIndex | figsearch.c:87-88 | an index below w * h has its row i / w below h |
| Stream.NextRow | figsearch.c:87-88 | after the last column the index continues at the next row |
| Stream.PastLastCell | figsearch.c:84 | the index w * h is the start of row h, so the loop stops right after the last cell |
| Stream.RowMajor | figsearch.c:87-88 | defines cell (r, c) of a row-major bit sequence as bit r * w + c, the inverse of the `i / sizeX`, `i % sizeX` placement |
| Stream.SymbolPlacement | figsearch.c:87-88 | the i-th bit of the stream is the cell at row i / width, column i % width |
| Reductions.BoolToInt | figsearch.c:184 | C's value of a comparison: 1 iff it holds, otherwise 0 |
| Reductions.Smaller | figsearch.c:184 | the branchless `val0*(val0<val1) + val1*(val1<=val0)` is the minimum of the two values |
| Reductions.LongestRowFromRuns | figsearch.c:118-133 | a left value that is largest, and first in row-major order, ends a longest horizontal line; all left values 0 means there is none |
| Reductions.LongestColFromRuns | figsearch.c:148-163 | the same for up values and vertical lines |
| Reductions.Bound | figsearch.c:182-184 | `smaller` at (r, c) is at most r + 1 and at most c + 1, so the probed cells lie in the bitmap |
| Reductions.Accepts | figsearch.c:187-188 | defines the two lookups: left at the top row and up at the left column of the side-k square ending at (r, c) both reach k |
| Reductions.SquareStep | figsearch.c:182-193 | a visit never lowers the best side; it changes the best only to a strictly larger side at this cell, equal to `smaller` and passing both lookups; it leaves the best alone iff `smaller` is not above it or a lookup fails |
| Reductions.SquareScan | figsearch.c:180-195 | defines the tracked best after the nested scan has visited every cell before (r, c) in row-major order, starting from side 0 at (-1, -1) |
| Reductions.SquareReport | figsearch.c:196-201 | nothing iff the best side is 0; otherwise the square of that side whose bottom-right corner is the best cell |
| Reductions.SquareScanSound | figsearch.c:180-195 | the tracked best is an accepted square at an already visited cell, or no square (-1, -1) |
| Reductions.SquareScanZero | figsearch.c:180-195 | the best side stays 0 exactly as long as every visited cell is 0 |
| Reductions.SquareScanMonotone | figsearch.c:185-193 | the best side never decreases along the scan |
| Reductions.CandidateAccepts | figsearch.c:186-188 | the code's two lookups at side `smaller` pass iff the outline of that square is all 1 |
| Reductions.LargestStep | figsearch.c:182-193 | one visit keeps the best the first largest passing tried square |
| Reductions.LargestNextRow | figsearch.c:180-181 | moving to the next row keeps that property |
| Reductions.SquareScanLargest | figsearch.c:180-195 | after any prefix of the scan, no passing tried square is larger than the best, and those as large come after it |
| Reductions.ReportFound | figsearch.c:196-201 | the reported corners of a passing, first largest best satisfy SquareFound |
| Reductions.SquareScanFound | figsearch.c:175-201 | the whole scan's report satisfies SquareFound: nothing iff no 1; otherwise an all-1 outline of side min(up, left) at its corner, the first largest passing tried square |
| Reductions.LongestRowRunUnique | figsearch.c:118-133 | only one report satisfies LongestRowRun on a given bitmap |
| Reductions.LongestColRunUnique | figsearch.c:148-163 | only one report satisfies LongestColRun on a given bitmap |
| Reductions.SquareFoundUnique | figsearch.c:180-201 | only one report satisfies SquareFound on a given bitmap |
| FigSearch.BitMap.constructor | figsearch.c:39-62 | both tables have sizeY rows of sizeX cells; the dimensions are recorded |
| FigSearch.BitMap.Load | figsearch.c:79-98 | the bitmap is the one the stream describes; status 1 iff fewer than sizeX * sizeY bits arrive; on status 0 every cell holds its up and left runs; on status 1 every cell before the first missing one does |
| FigSearch.BitMap.StoreBit | figsearch.c:86-94 | storing the next cell's two runs extends the filled row-major prefix by that cell |
| FigSearch.BitMap.LongestHLine | figsearch.c:115-133 | the report satisfies LongestRowRun on the loaded bitmap |
| FigSearch.BitMap.LongestVLine | figsearch.c:145-163 | the report satisfies LongestColRun on the loaded bitmap |
| FigSearch.BitMap.VisitCell | figsearch.c:182-193 | one visit computes SquareStep: the inner descending loop either accepts side `smaller` on its first pass or never |
| FigSearch.BitMap.LargestSquare | figsearch.c:175-201 | the report is that of the SquareScan fold and satisfies SquareFound |
| FigSearch.LoadBitMap | figsearch.c:65-99 | a fresh bitmap of height rows and width columns, loaded as Load states |
| FigSearch.TestBitMap | figsearch.c:101-107 | status 0 iff the stream holds at least height * width bits, otherwise 1 |
| FigSearch.FindHLine | figsearch.c:109-136 | status 1 and no report on a short stream; otherwise status 0 and a LongestRowRun report |
| FigSearch.FindVLine | figsearch.c:138-166 | status 1 and no report on a short stream; otherwise status 0 and a LongestColRun report |
| FigSearch.FindSquare | figsearch.c:168-205 | status 1 and no report on a short stream; otherwise status 0 and the SquareScan report, which satisfies SquareFound |
| Arguments.CommandName | figsearch.c:233-238 | each command code has a non-empty argument name |
| Arguments.CommandNames | figsearch.c:233-238 | the names that select a command are exactly "--help", "test", "hline", "vline", "square" |
| Arguments.CommandNameInjective | figsearch.c:233-238 | different commands have different names |
| Arguments.ArgumentCode | figsearch.c:233-239 | one argument gives the wrong-argument code 10 iff it names no command; otherwise it gives the code of the command it names |
| Arguments.ProgramStartType | figsearch.c:230-242 | 0 iff argc is 1; -1 iff argc is neither 1 nor 2; for argc 2, 10 iff argv[1] names no command, otherwise the code 1..5 of the command it names |
| Arguments.SelectsNamedCommand | figsearch.c:230-242 | argc 2 with a command's name selects exactly that command's code |
| Scenarios.HollowSquareReported | figsearch.c:186-193 | on the 3x3 outline with a 0 in the middle, the square search reports the whole 3x3 square |
| Scenarios.FullRow | figsearch.c:118-133 | on the 3x3 bitmap of 1s the horizontal search can only report (0, 0)-(0, 2) |
| Scenarios.FullColumn | figsearch.c:148-163 | on the 3x3 bitmap of 1s the vertical search can only report (0, 0)-(2, 0) |
| Scenarios.FullSquare | figsearch.c:180-201 | on the 3x3 bitmap of 1s the square search reports (0, 0)-(2, 2) |
| Scenarios.CheckeredSquare | figsearch.c:180-201 | on 101 / 010 the square search reports the 1x1 square at (0, 0) |

## Left out

- The header line (figsearch.c:66-70): `fgets` and `sscanf` are I/O. The dimensions are parameters and must not be negative. A failed `sscanf` leaves them uninitialised, and that case is not modelled.
- All printing: the debug `printf` of the dimensions (figsearch.c:72), "Valid"/"Invalid", "Not found", the coordinates, and the error messages. Results are returned values instead.
- Memory management: `allocBitMap`/`freeBitMap` (figsearch.c:29-57) and the allocation-failure exit (figsearch.c:74-76). The model allocates two Dafny arrays that cannot fail, so the double free on that path (figsearch.c:74-76 followed by 110-112) is not modelled either.
- The cells of one C `map` entry are two separate arrays `up` and `left` instead of `int[2]` slots.
- The first loop test reads the uninitialised `bitMapBitC` (figsearch.c:79, 84). The model starts with no byte read.
- The `char` against `EOF` comparison is not modelled. The stream simply ends at the end of `input`. Where `char` is signed, a 0xFF byte ends the stream early. Where `char` is unsigned, `bitMapBitC` never equals `EOF`, so on a short stream the loop at figsearch.c:84 never ends and the program hangs where the model returns status 1.
- The one extra `fgetc` after the last bit is placed is I/O with no effect on the result.
- The product `sizeX*sizeY` is unbounded here. The C `int` overflow of very large dimensions is not modelled.
- `helpPrint` (figsearch.c:209-219), `wrongArgument` (figsearch.c:245-255) and `main` (figsearch.c:257-278) are printing and switch glue. `ProgramStartType` holds the decision.
- FigSearch.BitMap.Load: on status 1, the contents of cells at and after the first missing bit are not stated. No command reads them: every command stops on status 1.
- Reductions.SquareFound: it does not claim that the square is the largest all-1 square, or the square with the largest all-1 outline. The code tries only side `min(up, left)` at each cell. This matches the program as written.
