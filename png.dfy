/**
 * The `PNG` object of png.rb:68-138: a file's bytes, its IHDR, IDAT and IEND
 * chunks, the header fields read from IHDR, and `write`, which turns the
 * inflated IDAT data into the grid of colours that is drawn.
 */
module PngImage {

  import opened Wrappers
  import opened Bytes
  import opened Chunks
  import opened PngHeader
  import opened Reconstruction
  import opened Scanlines
  import opened Defilter

  /**
   * The files `PNG.new` gets through without raising: the three chunks are
   * found, and their IHDR data is long enough for `set_header_info`.
   */
  predicate Openable(bytes: seq<byte>) {
    LocateChunk(IhdrTag, bytes).Some? && LocateChunk(IdatTag, bytes).Some? &&
    LocateChunk(IendTag, bytes).Some? &&
    DecodeHeader(LocateChunk(IhdrTag, bytes).value.data).Some?
  }

  /**
   * After the 8-byte signature, none of whose first four bytes is `I`, a chunk
   * tag starting with `I` (IHDR, IDAT, IEND) cannot first occur in the first
   * four bytes, so `LocateChunk` finds the chunk whenever the tag occurs at all.
   */
  lemma LocateAfterSignature(tag: seq<byte>, bytes: seq<byte>)
    requires |tag| == ChunkTypeSize && tag[0] == 0x49 && |bytes| >= 8 && bytes[..8] == SignatureBytes
    ensures LocateChunk(tag, bytes).Some? <==> FirstOccurrence(tag, bytes).Some?
  {
    if FirstOccurrence(tag, bytes).Some? {
      var p := FirstOccurrence(tag, bytes).value;
      var head := bytes[..8];
      assert head == SignatureBytes;
      assert OccursAt(tag, bytes, p);
      assert bytes[p] == 0x49 by {
        assert bytes[p..p + 4][0] == bytes[p];
      }
      assert bytes[0] != 0x49 && bytes[1] != 0x49 && bytes[2] != 0x49 && bytes[3] != 0x49 by {
        assert head[0] == bytes[0] && head[1] == bytes[1] && head[2] == bytes[2] && head[3] == bytes[3];
      }
    }
  }

  class Png {
    const bytes: seq<byte>
    const ihdr: Chunk
    const idat: Chunk
    const iend: Chunk
    var header: Header

    /** `PNG.new` (png.rb:69-76), given the file's contents. */
    constructor (bytes: seq<byte>)
      requires Openable(bytes)
      ensures this.bytes == bytes
      ensures ChunkView(ihdr.length, ihdr.data) == LocateChunk(IhdrTag, bytes).value
      ensures ChunkView(idat.length, idat.data) == LocateChunk(IdatTag, bytes).value
      ensures ChunkView(iend.length, iend.data) == LocateChunk(IendTag, bytes).value
      ensures Some(header) == DecodeHeader(LocateChunk(IhdrTag, bytes).value.data)
    {
      this.bytes := bytes;
      ihdr := new Chunk(IhdrTag, bytes);
      idat := new Chunk(IdatTag, bytes);
      iend := new Chunk(IendTag, bytes);
      header := Header(0, 0, 0, 0, 0, 0, 0);
      new;
      SetHeaderInfo();
    }

    /** `set_header_info` (png.rb:78-86): the header fields from the IHDR data. */
    method SetHeaderInfo()
      requires DecodeHeader(ihdr.data).Some?
      modifies this
      ensures Some(header) == DecodeHeader(ihdr.data)
    {
      header := DecodeHeader(ihdr.data).value;
    }

    /**
     * `write` without the canvas and the progress bar (png.rb:101-137): splits
     * `inflated`, the IDAT data after `Zlib::Inflate`, into scanlines and
     * reconstructs every colour of the image: all of them when `ok`, and
     * otherwise those of the rows before the first unknown filter type.
     */
    method Write(inflated: seq<byte>) returns (outputColors: array2<seq<int>>, ok: bool)
      requires |inflated| == header.height * Stride(header.width)
      ensures fresh(outputColors)
      ensures outputColors.Length0 == header.height && outputColors.Length1 == header.width
      ensures |FilterTypesOf(inflated, header.width)| == |RowColorsOf(inflated, header.width)| == header.height
      ensures WellShaped(FilterTypesOf(inflated, header.width), RowColorsOf(inflated, header.width), header.width)
      ensures ok <==> header.width == 0 || KnownUpTo(FilterTypesOf(inflated, header.width), header.height)
      ensures forall r, c ::
                0 <= r < header.height && 0 <= c < header.width &&
                KnownUpTo(FilterTypesOf(inflated, header.width), r + 1) ==>
                  outputColors[r, c] == Recon(FilterTypesOf(inflated, header.width), RowColorsOf(inflated, header.width), header.width, r, c)
    {
      var filterTypes, rowColors := Split(inflated, header.width);
      SplitIsWellShaped(inflated, header.width, header.height);
      outputColors, ok := Defilter.Defilter(filterTypes, rowColors, header.width, header.height);
    }
  }
}
