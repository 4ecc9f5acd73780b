/**
 * What the defilter loop of png.rb:112-135 computes, as a function of the
 * position: the reconstructed colour of the cell in row `r`, column `c`
 * (filter types 0-4 of section 6 of RFC 2083). Neighbours outside the image
 * are the zero triple, and only cells earlier in raster order are consulted.
 */
module Reconstruction {

  import opened Bytes
  import Paeth

  /** The `[0, 0, 0]` that stands for a neighbour outside the image. */
  const Zero: seq<int> := [0, 0, 0]

  /** The filter types the `case` of png.rb:116-134 handles; any other byte gives nil. */
  predicate KnownFilter(f: byte) {
    f <= 4
  }

  predicate KnownUpTo(filters: seq<byte>, n: nat)
    requires n <= |filters|
  {
    forall r :: 0 <= r < n ==> KnownFilter(filters[r])
  }

  /** An RGB triple with every component in 0..255. */
  predicate IsPixel(p: seq<int>) {
    |p| == 3 && forall i :: 0 <= i < 3 ==> 0 <= p[i] < 256
  }

  /** One filter-type byte per row, and rows of `width` 3-byte samples. */
  predicate WellShaped(filters: seq<byte>, rows: seq<seq<seq<byte>>>, width: nat) {
    |filters| == |rows| &&
    (forall r :: 0 <= r < |rows| ==> |rows[r]| == width) &&
    (forall r, c :: 0 <= r < |rows| && 0 <= c < |rows[r]| ==> |rows[r][c]| == 3)
  }

  /** `left.zip(top).map { |a, b| ((a + b) / 2).floor }`: floor of the componentwise mean. */
  function Average(left: seq<int>, top: seq<int>): (m: seq<int>)
    requires |left| <= |top|
    ensures |m| == |left|
    ensures forall i :: 0 <= i < |left| ==> 2 * m[i] <= left[i] + top[i] < 2 * m[i] + 2
  {
    seq(|left|, i requires 0 <= i < |left| => (left[i] + top[i]) / 2)
  }

  /**
   * The `case` of png.rb:116-134 for one cell: its colour from the filter type
   * `f`, its filtered sample and the reconstructed colours to its left, above
   * and above-left (the zero triple outside the image). Sub and Up leave the
   * sample as it is in the first column and the first row respectively.
   */
  function Cell(f: byte, color: seq<byte>, firstRow: bool, firstColumn: bool,
                left: seq<int>, top: seq<int>, leftTop: seq<int>): (p: seq<int>)
    requires KnownFilter(f) && |color| == 3 && IsPixel(left) && IsPixel(top) && IsPixel(leftTop)
    ensures IsPixel(p)
  {
    if f == 0 then color
    else if f == 1 then (if firstColumn then color else Add(color, left))
    else if f == 2 then (if firstRow then color else Add(color, top))
    else if f == 3 then Add(color, Average(left, top))
    else Add(color, Paeth.Predict(left, top, leftTop))
  }

  /**
   * The colour png.rb writes at `output_colors[r][c]` (lines 113-135), given the
   * filter types and filtered samples of every row. It is defined by recursion
   * on the raster position: it only uses the cells to the left, above and above-left.
   */
  function Recon(filters: seq<byte>, rows: seq<seq<seq<byte>>>, width: nat, r: nat, c: nat): (p: seq<int>)
    requires WellShaped(filters, rows, width) && r < |rows| && c < width
    requires KnownUpTo(filters, r + 1)
    ensures IsPixel(p)
    decreases r, c
  {
    var left := if c == 0 then Zero else Recon(filters, rows, width, r, c - 1);
    var top := if r == 0 then Zero else Recon(filters, rows, width, r - 1, c);
    var leftTop := if r == 0 || c == 0 then Zero else Recon(filters, rows, width, r - 1, c - 1);
    Cell(filters[r], rows[r][c], r == 0, c == 0, left, top, leftTop)
  }

  // The encoder's side (section 6 of RFC 2083, not part of png.rb): every filter
  // type subtracts a prediction made from the raw neighbours, zero outside the image.

  /** The prediction of filter type `f` from the left, upper and upper-left neighbours. */
  function Predictor(f: byte, left: seq<int>, top: seq<int>, leftTop: seq<int>): (p: seq<int>)
    requires KnownFilter(f) && |left| == 3 && |top| == 3 && |leftTop| == 3
    ensures |p| == 3
  {
    if f == 0 then Zero
    else if f == 1 then left
    else if f == 2 then top
    else if f == 3 then Average(left, top)
    else Paeth.Predict(left, top, leftTop)
  }

  /** The filtered sample the encoder stores for raw cell `(r, c)`. */
  function FilterSample(filters: seq<byte>, raw: seq<seq<seq<byte>>>, width: nat, r: nat, c: nat): (s: seq<byte>)
    requires WellShaped(filters, raw, width) && KnownUpTo(filters, |raw|)
    requires r < |raw| && c < width
    ensures |s| == 3
  {
    var left := if c == 0 then Zero else raw[r][c - 1];
    var top := if r == 0 then Zero else raw[r - 1][c];
    var leftTop := if r == 0 || c == 0 then Zero else raw[r - 1][c - 1];
    SubMod(raw[r][c], Predictor(filters[r], left, top, leftTop))
  }

  /** A raw image filtered row by row with the given filter types. */
  function FilterImage(filters: seq<byte>, raw: seq<seq<seq<byte>>>, width: nat): (filtered: seq<seq<seq<byte>>>)
    requires WellShaped(filters, raw, width) && KnownUpTo(filters, |raw|)
    ensures WellShaped(filters, filtered, width)
    ensures forall r, c :: 0 <= r < |raw| && 0 <= c < width ==> filtered[r][c] == FilterSample(filters, raw, width, r, c)
  {
    seq(|raw|, r requires 0 <= r < |raw| =>
      seq(width, c requires 0 <= c < width => FilterSample(filters, raw, width, r, c)))
  }

  lemma SubModZero(s: seq<byte>)
    requires |s| == 3
    ensures SubMod(s, Zero) == s
  {
  }

  /** `Recon` at `(r, c)` is the `case` applied to the reconstructed neighbours. */
  lemma ReconAt(filters: seq<byte>, rows: seq<seq<seq<byte>>>, width: nat, r: nat, c: nat,
                left: seq<int>, top: seq<int>, leftTop: seq<int>)
    requires WellShaped(filters, rows, width) && r < |rows| && c < width && KnownUpTo(filters, r + 1)
    requires left == if c == 0 then Zero else Recon(filters, rows, width, r, c - 1)
    requires top == if r == 0 then Zero else Recon(filters, rows, width, r - 1, c)
    requires leftTop == if r == 0 || c == 0 then Zero else Recon(filters, rows, width, r - 1, c - 1)
    ensures IsPixel(left) && IsPixel(top) && IsPixel(leftTop)
    ensures Recon(filters, rows, width, r, c) == Cell(filters[r], rows[r][c], r == 0, c == 0, left, top, leftTop)
  {
  }

  /** Defiltering one cell undoes filtering it, given the raw neighbours. */
  lemma CellInvertsFilter(f: byte, raw: seq<byte>, firstRow: bool, firstColumn: bool,
                          left: seq<int>, top: seq<int>, leftTop: seq<int>)
    requires KnownFilter(f) && |raw| == 3 && IsPixel(left) && IsPixel(top) && IsPixel(leftTop)
    requires firstColumn ==> left == Zero
    requires firstRow ==> top == Zero
    ensures Cell(f, SubMod(raw, Predictor(f, left, top, leftTop)), firstRow, firstColumn, left, top, leftTop) == raw
  {
    var p := Predictor(f, left, top, leftTop);
    AddInvertsSubMod(raw, p);
    SubModZero(raw);
  }

  /**
   * Defiltering undoes filtering: whatever filter type each row used, the
   * reconstructed colour of every cell is the raw colour.
   */
  lemma {:induction false} ReconInvertsFilter(filters: seq<byte>, raw: seq<seq<seq<byte>>>, width: nat, r: nat, c: nat)
    requires WellShaped(filters, raw, width) && KnownUpTo(filters, |raw|)
    requires r < |raw| && c < width
    ensures Recon(filters, FilterImage(filters, raw, width), width, r, c) == raw[r][c]
    decreases r, c
  {
    var filtered := FilterImage(filters, raw, width);
    assert KnownUpTo(filters, r + 1);
    var left: seq<int> := if c == 0 then Zero else raw[r][c - 1];
    var top: seq<int> := if r == 0 then Zero else raw[r - 1][c];
    var leftTop: seq<int> := if r == 0 || c == 0 then Zero else raw[r - 1][c - 1];
    if c > 0 {
      ReconInvertsFilter(filters, raw, width, r, c - 1);
    }
    if r > 0 {
      ReconInvertsFilter(filters, raw, width, r - 1, c);
      if c > 0 {
        ReconInvertsFilter(filters, raw, width, r - 1, c - 1);
      }
    }
    ReconAt(filters, filtered, width, r, c, left, top, leftTop);
    assert filtered[r][c] == SubMod(raw[r][c], Predictor(filters[r], left, top, leftTop));
    CellInvertsFilter(filters[r], raw[r][c], r == 0, c == 0, left, top, leftTop);
  }

  /** With nothing above, a Paeth cell is reconstructed as a Sub cell. */
  lemma PaethCellWithoutRowAbove(color: seq<byte>, firstColumn: bool, left: seq<int>)
    requires |color| == 3 && IsPixel(left) && (firstColumn ==> left == Zero)
    ensures Cell(4, color, true, firstColumn, left, Zero, Zero) == Cell(1, color, true, firstColumn, left, Zero, Zero)
  {
    Paeth.PredictWithoutRowAbove(left, Zero, Zero);
    assert left[..3] == left;
    AddZero(color, Zero);
  }

  /** With nothing to the left, a Paeth cell is reconstructed as an Up cell. */
  lemma PaethCellWithoutLeftColumn(color: seq<byte>, firstRow: bool, top: seq<int>)
    requires |color| == 3 && IsPixel(top) && (firstRow ==> top == Zero)
    ensures Cell(4, color, firstRow, true, Zero, top, Zero) == Cell(2, color, firstRow, true, Zero, top, Zero)
  {
    Paeth.PredictWithoutLeftColumn(Zero, top, Zero);
    assert top[..3] == top;
    AddZero(color, Zero);
  }

  /** Paeth on the first row reconstructs exactly what Sub would. */
  lemma {:induction false} PaethOnFirstRowIsSub(filters: seq<byte>, rows: seq<seq<seq<byte>>>, width: nat, c: nat)
    requires WellShaped(filters, rows, width) && |rows| > 0 && c < width
    requires filters[0] == 4
    ensures Recon(filters, rows, width, 0, c) == Recon(filters[0 := 1], rows, width, 0, c)
  {
    var g := filters[0 := 1];
    assert KnownUpTo(filters, 1) && KnownUpTo(g, 1);
    var left := if c == 0 then Zero else Recon(filters, rows, width, 0, c - 1);
    if c > 0 {
      PaethOnFirstRowIsSub(filters, rows, width, c - 1);
    }
    assert Recon(filters, rows, width, 0, c) == Cell(4, rows[0][c], true, c == 0, left, Zero, Zero);
    assert Recon(g, rows, width, 0, c) == Cell(1, rows[0][c], true, c == 0, left, Zero, Zero);
    PaethCellWithoutRowAbove(rows[0][c], c == 0, left);
  }

  /** The colours of rows up to `r` depend only on the filter types of those rows. */
  lemma {:induction false} ReconUsesEarlierFilters(f: seq<byte>, g: seq<byte>, rows: seq<seq<seq<byte>>>, width: nat, r: nat, c: nat)
    requires WellShaped(f, rows, width) && WellShaped(g, rows, width) && r < |rows| && c < width
    requires KnownUpTo(f, r + 1)
    requires forall k :: 0 <= k <= r ==> f[k] == g[k]
    ensures Recon(f, rows, width, r, c) == Recon(g, rows, width, r, c)
    decreases r, c
  {
    assert KnownUpTo(g, r + 1);
    var left := if c == 0 then Zero else Recon(f, rows, width, r, c - 1);
    var top := if r == 0 then Zero else Recon(f, rows, width, r - 1, c);
    var leftTop := if r == 0 || c == 0 then Zero else Recon(f, rows, width, r - 1, c - 1);
    if c > 0 {
      ReconUsesEarlierFilters(f, g, rows, width, r, c - 1);
      assert left == Recon(g, rows, width, r, c - 1);
    }
    if r > 0 {
      assert KnownUpTo(f, r);
      ReconUsesEarlierFilters(f, g, rows, width, r - 1, c);
      assert top == Recon(g, rows, width, r - 1, c);
      if c > 0 {
        ReconUsesEarlierFilters(f, g, rows, width, r - 1, c - 1);
        assert leftTop == Recon(g, rows, width, r - 1, c - 1);
      }
    }
  }

  /** Paeth in the first column reconstructs exactly what Up would. */
  lemma PaethOnFirstColumnIsUp(filters: seq<byte>, rows: seq<seq<seq<byte>>>, width: nat, r: nat)
    requires WellShaped(filters, rows, width) && r < |rows| && 0 < width
    requires KnownUpTo(filters, r + 1) && filters[r] == 4
    ensures Recon(filters, rows, width, r, 0) == Recon(filters[r := 2], rows, width, r, 0)
  {
    var g := filters[r := 2];
    assert KnownUpTo(g, r + 1);
    var top := if r == 0 then Zero else Recon(filters, rows, width, r - 1, 0);
    if r > 0 {
      assert KnownUpTo(filters, r);
      ReconUsesEarlierFilters(filters, g, rows, width, r - 1, 0);
    }
    assert Recon(filters, rows, width, r, 0) == Cell(4, rows[r][0], r == 0, true, Zero, top, Zero);
    assert Recon(g, rows, width, r, 0) == Cell(2, rows[r][0], r == 0, true, Zero, top, Zero);
    PaethCellWithoutLeftColumn(rows[r][0], r == 0, top);
  }
}
