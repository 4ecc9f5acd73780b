/**
 * Cutting the inflated image data into scanlines (png.rb:105-109): slices of
 * `width * 3 + 1` bytes, each a filter-type byte followed by 3-byte samples.
 */
module Scanlines {

  import opened Bytes
  import opened Reconstruction

  /** Bytes per scanline: the filter-type byte and `width` RGB samples. */
  function Stride(width: nat): nat {
    width * 3 + 1
  }

  /** Scanline `r` found by its offset: `stride` bytes from `r * stride`, or up to the end. */
  function ScanlineAt(data: seq<byte>, width: nat, r: nat): seq<byte>
    requires Mul(r, Stride(width)) < |data|
  {
    var a := Mul(r, Stride(width));
    data[a..if a + Stride(width) <= |data| then a + Stride(width) else |data|]
  }

  /** The slices of `each_slice(stride)` are the scanlines at offsets `0, stride, 2 * stride, ...`. */
  lemma ScanlinesAt(data: seq<byte>, width: nat)
    ensures forall r :: 0 <= r < |EachSlice(data, Stride(width))| ==>
              Mul(r, Stride(width)) < |data| && EachSlice(data, Stride(width))[r] == ScanlineAt(data, width, r)
  {
    forall r | 0 <= r < |EachSlice(data, Stride(width))|
      ensures Mul(r, Stride(width)) < |data| && EachSlice(data, Stride(width))[r] == ScanlineAt(data, width, r)
    {
      EachSliceStart(data, Stride(width), r);
    }
  }

  /**
   * `filter_types`: byte 0 of every slice. There is one per scanline, enough to
   * cover the data, and each is the byte at its scanline's offset.
   */
  function FilterTypesOf(data: seq<byte>, width: nat): (ft: seq<byte>)
    ensures |data| <= Mul(|ft|, Stride(width))
    ensures forall r {:trigger ft[r]} :: 0 <= r < |ft| ==> Mul(r, Stride(width)) < |data| && ft[r] == data[Mul(r, Stride(width))]
  {
    var slices := EachSlice(data, Stride(width));
    ScanlinesAt(data, width);
    EachSliceLength(data, Stride(width));
    seq(|slices|, r requires 0 <= r < |slices| => slices[r][0])
  }

  /**
   * `row_colors`: the rest of every slice, in groups of 3. There is one row per
   * scanline, and each row is its scanline after the filter-type byte, cut into
   * 3-byte samples.
   */
  function RowColorsOf(data: seq<byte>, width: nat): (rc: seq<seq<seq<byte>>>)
    ensures |data| <= Mul(|rc|, Stride(width))
    ensures forall r {:trigger rc[r]} :: 0 <= r < |rc| ==>
              Mul(r, Stride(width)) < |data| && rc[r] == EachSlice(ScanlineAt(data, width, r)[1..], 3)
  {
    var slices := EachSlice(data, Stride(width));
    ScanlinesAt(data, width);
    EachSliceLength(data, Stride(width));
    seq(|slices|, r requires 0 <= r < |slices| => EachSlice(slices[r][1..], 3))
  }

  /** The `each_slice(...).map` of png.rb:106-109, appending to `filter_types` as it goes. */
  method Split(data: seq<byte>, width: nat) returns (filterTypes: seq<byte>, rowColors: seq<seq<seq<byte>>>)
    ensures filterTypes == FilterTypesOf(data, width)
    ensures rowColors == RowColorsOf(data, width)
  {
    var slices := EachSlice(data, Stride(width));
    filterTypes, rowColors := [], [];
    var i := 0;
    while i < |slices|
      invariant 0 <= i <= |slices|
      invariant filterTypes == FilterTypesOf(data, width)[..i]
      invariant rowColors == RowColorsOf(data, width)[..i]
    {
      var colors := slices[i];
      filterTypes := filterTypes + [colors[0]];
      rowColors := rowColors + [EachSlice(colors[1..], 3)];
      i := i + 1;
    }
  }

  /** Row `r` of data holding `height` scanlines, with offsets written as `Mul`. */
  lemma RowAt(data: seq<byte>, width: nat, height: nat, r: nat)
    requires |data| == Mul(height, Stride(width)) && r < height
    ensures |FilterTypesOf(data, width)| == |RowColorsOf(data, width)| == height
    ensures Mul(r, Stride(width)) + Stride(width) <= |data|
    ensures FilterTypesOf(data, width)[r] == data[Mul(r, Stride(width))]
    ensures RowColorsOf(data, width)[r] ==
              EachSlice(data[Mul(r, Stride(width)) + 1..Mul(r, Stride(width)) + Stride(width)], 3)
  {
    var s := Stride(width);
    EachSliceCount(data, s, height);
    MulGrows(r, height, s);
    var a := Mul(r, s);
    assert ScanlineAt(data, width, r) == data[a..a + s];
    assert data[a..a + s][1..] == data[a + 1..a + s];
  }

  /** Sample `c` of the `width` samples held in `data[start..end]`, with offsets written as `Mul`. */
  lemma SampleIn(data: seq<byte>, start: nat, end: nat, width: nat, c: nat)
    requires end == start + Mul(width, 3) && end <= |data| && c < width
    ensures start + Mul(c, 3) + 3 <= end
    ensures |EachSlice(data[start..end], 3)| == width
    ensures EachSlice(data[start..end], 3)[c] == data[start + Mul(c, 3)..start + Mul(c, 3) + 3]
  {
    EachSliceAt(data[start..end], 3, width, c);
    var b := Mul(c, 3);
    SliceOfSlice(data, start, end, b, b + 3);
  }

  /** Sample `c` of row `r`, with offsets written as `Mul`. */
  lemma SampleAt(data: seq<byte>, width: nat, height: nat, r: nat, c: nat)
    requires |data| == Mul(height, Stride(width)) && r < height && c < width
    ensures |FilterTypesOf(data, width)| == |RowColorsOf(data, width)| == height
    ensures Mul(r, Stride(width)) + Stride(width) <= |data|
    ensures |RowColorsOf(data, width)[r]| == width
    ensures Mul(r, Stride(width)) + 1 + Mul(c, 3) + 3 <= |data|
    ensures RowColorsOf(data, width)[r][c] ==
              data[Mul(r, Stride(width)) + 1 + Mul(c, 3)..Mul(r, Stride(width)) + 1 + Mul(c, 3) + 3]
  {
    RowAt(data, width, height, r);
    var a := Mul(r, Stride(width));
    MulIsProduct(width, 3);
    SampleIn(data, a + 1, a + Stride(width), width, c);
  }

  /**
   * When the data holds exactly `height` scanlines, there are `height` rows of
   * `width` samples; row `r` has filter type `data[r * stride]` and its sample
   * `c` is the 3 bytes from `r * stride + 1 + 3 * c`.
   */
  lemma ScanlineLayout(data: seq<byte>, width: nat, height: nat, r: nat, c: nat)
    requires |data| == height * Stride(width) && r < height && c < width
    ensures |FilterTypesOf(data, width)| == |RowColorsOf(data, width)| == height
    ensures r * Stride(width) + Stride(width) <= |data|
    ensures FilterTypesOf(data, width)[r] == data[r * Stride(width)]
    ensures var start := r * Stride(width) + 1 + 3 * c;
            |RowColorsOf(data, width)[r]| == width &&
            RowColorsOf(data, width)[r][c] == data[start..start + 3]
  {
    MulIsProduct(height, Stride(width));
    MulIsProduct(r, Stride(width));
    MulIsProduct(c, 3);
    RowAt(data, width, height, r);
    SampleAt(data, width, height, r, c);
  }

  /** Exactly `height` scanlines split into a well-shaped image of `height` rows. */
  lemma SplitIsWellShaped(data: seq<byte>, width: nat, height: nat)
    requires |data| == height * Stride(width)
    ensures |RowColorsOf(data, width)| == height
    ensures WellShaped(FilterTypesOf(data, width), RowColorsOf(data, width), width)
  {
    MulIsProduct(height, Stride(width));
    EachSliceCount(data, Stride(width), height);
    var rows := RowColorsOf(data, width);
    forall r | 0 <= r < height
      ensures |rows[r]| == width
    {
      RowAt(data, width, height, r);
      MulIsProduct(width, 3);
      EachSliceCount(data[Mul(r, Stride(width)) + 1..Mul(r, Stride(width)) + Stride(width)], 3, width);
    }
    forall r, c | 0 <= r < height && 0 <= c < width
      ensures |rows[r][c]| == 3
    {
      SampleAt(data, width, height, r, c);
    }
  }
}
