// The byte stream that follows the header line, and the bitmap it describes.

module Stream {
  import opened Grids

  /** The two bytes the loader accepts as bitmap symbols. */
  predicate IsSymbol(ch: char)
  {
    ch == '0' || ch == '1'
  }

  /** `ch - '0'` for a symbol byte. */
  function SymbolValue(ch: char): (b: Bit)
    requires IsSymbol(ch)
    ensures b == 1 <==> ch == '1'
  {
    (ch as int) - ('0' as int)
  }

  /** The bits a stream carries, in order; every byte other than '0' or '1' is skipped. */
  function Symbols(input: seq<char>): (bits: seq<Bit>)
    ensures |bits| <= |input|
  {
    if input == [] then []
    else (if IsSymbol(input[0]) then [SymbolValue(input[0])] else []) + Symbols(input[1..])
  }

  lemma {:induction false} SymbolsAppend(a: seq<char>, b: seq<char>)
    ensures Symbols(a + b) == Symbols(a) + Symbols(b)
    decreases |a|
  {
    if a != [] {
      var head := if IsSymbol(a[0]) then [SymbolValue(a[0])] else [];
      assert (a + b)[0] == a[0];
      assert (a + b)[1..] == a[1..] + b;
      SymbolsAppend(a[1..], b);
      calc {
        Symbols(a + b);
        head + Symbols(a[1..] + b);
        head + (Symbols(a[1..]) + Symbols(b));
        (head + Symbols(a[1..])) + Symbols(b);
        Symbols(a) + Symbols(b);
      }
    } else {
      assert a + b == b;
    }
  }

  /** The bits of a prefix of the stream are a prefix of its bits. */
  lemma SymbolsPrefix(input: seq<char>, k: nat)
    requires k <= |input|
    ensures Symbols(input[..k]) <= Symbols(input)
  {
    assert input == input[..k] + input[k..];
    SymbolsAppend(input[..k], input[k..]);
  }

  /**
   * Reading one more byte: the bits read so far stay a prefix of the
   * stream's bits, and a symbol byte is the next of them.
   */
  lemma NextByte(input: seq<char>, pos: nat)
    requires pos < |input|
    ensures Symbols(input[..pos + 1]) <= Symbols(input)
    ensures |Symbols(input[..pos + 1])| ==
      |Symbols(input[..pos])| + (if IsSymbol(input[pos]) then 1 else 0)
    ensures IsSymbol(input[pos]) ==>
      Symbols(input)[|Symbols(input[..pos])|] == SymbolValue(input[pos])
  {
    assert input[..pos + 1] == input[..pos] + [input[pos]];
    SymbolsSnoc(input[..pos], input[pos]);
    SymbolsPrefix(input, pos + 1);
  }

  /** A byte other than '0' or '1' anywhere in the stream changes nothing. */
  lemma SymbolsSkip(a: seq<char>, ch: char, b: seq<char>)
    requires !IsSymbol(ch)
    ensures Symbols(a + [ch] + b) == Symbols(a + b)
  {
    SymbolsAppend(a + [ch], b);
    SymbolsAppend(a, [ch]);
    SymbolsAppend(a, b);
    assert Symbols([ch]) == [];
  }

  /** Each symbol byte contributes its value, in the order the bytes come. */
  lemma SymbolsSnoc(a: seq<char>, ch: char)
    ensures Symbols(a + [ch]) == Symbols(a) + (if IsSymbol(ch) then [SymbolValue(ch)] else [])
  {
    SymbolsAppend(a, [ch]);
    assert Symbols([ch]) == (if IsSymbol(ch) then [SymbolValue(ch)] else []) + Symbols([]);
  }

  /** The first n bits, with 0s after the end of the stream. */
  function Padded(bits: seq<Bit>, n: nat): (p: seq<Bit>)
    ensures |p| == n
    ensures forall k :: 0 <= k < n ==> p[k] == if k < |bits| then bits[k] else 0
  {
    if |bits| >= n then bits[..n] else bits + seq(n - |bits|, _ => 0)
  }

  /**
   * The bitmap of `height` rows and `width` columns that the stream
   * describes; cells the stream does not reach read as 0.
   */
  ghost function FromStream(width: nat, height: nat, input: seq<char>): (g: Grid)
    ensures g.WellFormed() && g.width == width && g.height == height
  {
    var bits := Padded(Symbols(input), width * height);
    Grid(width, height,
      seq(height, r requires 0 <= r < height =>
        seq(width, c requires 0 <= c < width => RowMajor(bits, width, height, r, c))))
  }

  /** Cell (r, c) of a row-major bit sequence. */
  function RowMajor(bits: seq<Bit>, w: nat, h: nat, r: nat, c: nat): Bit
    requires |bits| == w * h && r < h && c < w
  {
    CellIndex(w, h, r, c);
    bits[r * w + c]
  }

  /** Row-major coordinates determine the index and back. */
  lemma DivModUnique(w: nat, r: nat, c: nat)
    requires c < w
    ensures (r * w + c) / w == r && (r * w + c) % w == c
  {
    var i := r * w + c;
    var q, m := i / w, i % w;
    assert q * w + m == r * w + c;
    if q > r {
      MulMono(1, q - r, w);
    } else if q < r {
      MulMono(1, r - q, w);
    }
  }

  lemma RowOfIndex(w: nat, h: nat, i: nat)
    requires i < w * h
    ensures w > 0 && i / w < h && i == (i / w) * w + i % w && i % w < w
  {
    if i / w >= h {
      MulMono(h, i / w, w);
    }
  }

  /** Moving past the last column continues at the start of the next row. */
  lemma NextRow(w: nat, y: nat, x: nat)
    requires x + 1 == w
    ensures (y + 1) * w == y * w + x + 1
  {
  }

  /** The index just past the last cell is the start of row h. */
  lemma PastLastCell(w: nat, h: nat, y: nat, x: nat)
    requires x < w && y * w + x == w * h
    ensures y == h && x == 0
  {
    DivModUnique(w, y, x);
    DivModUnique(w, h, 0);
    assert w * h == h * w + 0;
  }

  /** The i-th symbol of the stream lands at row i / width, column i % width. */
  lemma SymbolPlacement(width: nat, height: nat, input: seq<char>, i: nat)
    requires i < width * height && i < |Symbols(input)|
    ensures width > 0 && i / width < height
    ensures Cell(FromStream(width, height, input), i / width, i % width) == Symbols(input)[i]
  {
    var r, c := i / width, i % width;
    RowOfIndex(width, height, i);
    var g := FromStream(width, height, input);
    var bits := Padded(Symbols(input), width * height);
    assert bits[i] == Symbols(input)[i];
    assert Cell(g, r, c) == RowMajor(bits, width, height, r, c);
  }
}
