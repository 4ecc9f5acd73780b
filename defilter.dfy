/**
 * The defilter loop of png.rb:112-135: `output_colors` is filled in raster
 * order, each cell from its filtered sample and the cells already written to
 * its left, above and above-left.
 */
module Defilter {

  import opened Bytes
  import opened Reconstruction
  import Paeth

  /** The placeholder a cell holds before the loop writes it (the `0` of `Array.new(width, 0)`). */
  const Unwritten: seq<int> := []

  /**
   * One step of the `case` of png.rb:116-134: the colour of cell `(r, c)` from its
   * filtered sample and the colours already written to its left, above and
   * above-left (the zero triple outside the image).
   */
  method ReconstructCell(filters: seq<byte>, rows: seq<seq<seq<byte>>>, width: nat, r: nat, c: nat,
                         left: seq<int>, top: seq<int>, leftTop: seq<int>) returns (out: seq<int>)
    requires WellShaped(filters, rows, width) && r < |rows| && c < width && KnownUpTo(filters, r + 1)
    requires left == if c == 0 then Zero else Recon(filters, rows, width, r, c - 1)
    requires top == if r == 0 then Zero else Recon(filters, rows, width, r - 1, c)
    requires leftTop == if r == 0 || c == 0 then Zero else Recon(filters, rows, width, r - 1, c - 1)
    ensures out == Recon(filters, rows, width, r, c)
  {
    ReconAt(filters, rows, width, r, c, left, top, leftTop);
    var color := rows[r][c];
    var f := filters[r];
    if f == 0 {
      out := color;
    } else if f == 1 {
      out := if c == 0 then color else Add(color, left);
    } else if f == 2 {
      out := if r == 0 then color else Add(color, top);
    } else if f == 3 {
      out := Add(color, Average(left, top));
    } else {
      out := Add(color, Paeth.Predict(left, top, leftTop));
    }
  }

  /**
   * One pass of the inner `each_with_index` (png.rb:114-136): writes the cells of
   * row `row` from left to right, the rows above already written. It stops with
   * `ok` false when the row's filter type is unknown, having written nothing.
   */
  method DefilterRow(grid: array2<seq<int>>, filters: seq<byte>, rows: seq<seq<seq<byte>>>, width: nat, row: nat)
      returns (ok: bool)
    requires WellShaped(filters, rows, width) && row < |rows|
    requires grid.Length0 == |rows| && grid.Length1 == width
    requires width > 0 ==> KnownUpTo(filters, row)
    requires forall r, c :: 0 <= r < row && 0 <= c < width ==> grid[r, c] == Recon(filters, rows, width, r, c)
    modifies grid
    ensures ok <==> width == 0 || KnownFilter(filters[row])
    ensures ok && width > 0 ==> KnownUpTo(filters, row + 1)
    ensures ok ==> forall c :: 0 <= c < width ==> grid[row, c] == Recon(filters, rows, width, row, c)
    ensures forall r, c :: 0 <= r < |rows| && 0 <= c < width && (r != row || !ok) ==> grid[r, c] == old(grid[r, c])
  {
    if width > 0 && !KnownFilter(filters[row]) {
      return false;
    }
    ok := true;
    var col := 0;
    while col < width
      invariant 0 <= col <= width
      invariant width > 0 ==> KnownUpTo(filters, row + 1)
      invariant forall c :: 0 <= c < col ==> grid[row, c] == Recon(filters, rows, width, row, c)
      invariant forall r, c :: 0 <= r < |rows| && 0 <= c < width && (r != row || col <= c) ==> grid[r, c] == old(grid[r, c])
    {
      var left := if col == 0 then Zero else grid[row, col - 1];
      var top := if row == 0 then Zero else grid[row - 1, col];
      var leftTop := if row == 0 || col == 0 then Zero else grid[row - 1, col - 1];
      var out := ReconstructCell(filters, rows, width, row, col, left, top, leftTop);
      grid[row, col] := out;
      col := col + 1;
    }
  }

  /**
   * The whole loop of png.rb:112-137 over an `height` by `width` grid
   * (`output_colors`) whose cells start out unwritten. A row whose filter type
   * is not 0-4 makes `case` yield nil, which the drawing step cannot use: the
   * loop stops there with `ok` false, the rows before it complete.
   */
  method Defilter(filters: seq<byte>, rows: seq<seq<seq<byte>>>, width: nat, height: nat)
      returns (grid: array2<seq<int>>, ok: bool)
    requires WellShaped(filters, rows, width) && |rows| == height
    ensures fresh(grid) && grid.Length0 == height && grid.Length1 == width
    ensures ok <==> width == 0 || KnownUpTo(filters, height)
    ensures forall r, c :: 0 <= r < height && 0 <= c < width && KnownUpTo(filters, r + 1) ==>
              grid[r, c] == Recon(filters, rows, width, r, c)
    ensures forall r, c :: 0 <= r < height && 0 <= c < width && !KnownUpTo(filters, r + 1) ==>
              grid[r, c] == Unwritten
  {
    grid := new seq<int>[height, width]((_, _) => Unwritten);
    ok := true;
    var row := 0;
    while row < height
      invariant 0 <= row <= height
      invariant width > 0 ==> KnownUpTo(filters, row)
      invariant forall r, c :: 0 <= r < row && 0 <= c < width ==> grid[r, c] == Recon(filters, rows, width, r, c)
      invariant forall r, c :: row <= r < height && 0 <= c < width ==> grid[r, c] == Unwritten
    {
      ok := DefilterRow(grid, filters, rows, width, row);
      if !ok {
        return;
      }
      row := row + 1;
    }
  }
}
