# png-training in Dafny

A model of `png.rb`, a small Ruby viewer for truecolour PNG files, together with
proofs about the model. The viewer works in the following steps:

1. It checks the 8-byte PNG signature (section 3.1 of RFC 2083).
2. It finds the IHDR, IDAT and IEND chunks by searching the file for their type tags.
3. It reads the image header out of the IHDR data (section 4.1.1 of RFC 2083).
4. It inflates the IDAT data.
5. It cuts the result into scanlines of `width * 3 + 1` bytes.
6. It undoes the per-scanline filters None, Sub, Up, Average and Paeth (section 6 of RFC 2083) into a grid of RGB colours.
7. It draws that grid.

The modules follow the parts of the program:

- `Bytes` covers the byte helpers the program patches into Ruby:
  - `String#to_hex`;
  - `Array#add`;
  - Ruby's `String#[start, len]` and `each_slice`.
- `Paeth` covers `paeth_predictor`.
- `Chunks` covers class `Chunk` and its `read_chunk`:
  - the rule the regular expression is meant to follow (`LocateChunk`, used by the class);
  - the regular expression as written (`ReadChunkAsWritten`).
- `PngHeader` covers `is_png?`, `set_header_info` and `is_processable?`, plus an IHDR encoder used as their partner.
- `Reconstruction` defines the colour of every cell by recursion on its position. This is the specification of the defilter loop. It also defines the encoder's filters as an independent partner.
- `Scanlines` covers the scanline split of `write`, as a loop proved against two functions.
- `Defilter` covers the nested defilter loop, which fills an `array2` and is proved against `Reconstruction.Recon`.
- `PngImage` covers class `PNG`: its constructor, `set_header_info` and `write`.

Bytes are integers in 0..255. Colours are sequences of integers. `output_colors` is an `array2`. A cell the loop has not yet written holds the empty sequence, which stands for Ruby's placeholder `0`.

## Model

| member | source | states |
|---|---|---|
| Bytes.HexString | png.rb:48-50 | `unpack("H*")`: two lower-case hexadecimal digits per byte, high nibble first |
| Bytes.HexValue | png.rb:49 | `String#hex` on a string of hexadecimal digits: `k` digits give a value below `16^k`. On every text `unpack("H*")` produces, `HexTextIsBigEndian` fixes the value as the bytes' big-endian value |
| Bytes.HexTextIsBigEndian | png.rb:48-50 | the hexadecimal text of a byte string, read back in base 16, is the bytes' big-endian value, and 0 for the empty string |
| Bytes.ToHex | png.rb:48-50 | `String#to_hex`: the bytes read as one big-endian unsigned integer, so `k` bytes give a value below `256^k` |
| Bytes.BigEndianOfBytes | png.rb:48-50 | decoding the `k`-byte big-endian encoding of `n < 256^k` gives `n` back |
| Bytes.BytesOfBigEndian | png.rb:48-50 | re-encoding the value of a byte string in its own width gives the same bytes |
| Bytes.Add | png.rb:38-40 | `Array#add`: the result has the receiver's length, and each entry is the sum of the two entries modulo 256, in 0..255 |
| Bytes.AddInvertsSubMod | png.rb:38-40 | adding a prediction back undoes subtracting it modulo 256, for every prediction |
| Bytes.AddZero | png.rb:38-40 | adding the zero triple leaves a sample unchanged |
| Bytes.Slice | png.rb:64 | `String#[start, len]` is nil exactly when `start` is past the end; otherwise it is the run from `start`, of length `len` when that fits and running to the end of the string when it does not |
| Bytes.EachSlice | png.rb:106-109 | `each_slice(n)`: no piece is empty, and all but the last have exactly `n` elements |
| Bytes.EachSliceLength | png.rb:106 | `each_slice(n)` gives no pieces exactly for the empty input, and enough pieces of `n` to cover the input |
| Bytes.EachSliceStart | png.rb:106 | piece `i` of `each_slice(n)` starts at offset `i * n` (`Mul(i, n)`), inside the input, and runs for `n` elements or to the end |
| Bytes.EachSliceFlatten | png.rb:106-109 | the pieces of `each_slice(n)`, concatenated in order, give back the input |
| Bytes.EachSliceCount | png.rb:106 | `k * n` elements (written `Mul(k, n)`, which `MulIsProduct` equates with `k * n`) cut into slices of `n` give `k` slices |
| Bytes.EachSliceAt | png.rb:106 | the `i`-th slice is the run of `n` elements from offset `i * n` (`Mul(i, n)`) |
| Paeth.PaethChoice | png.rb:27-33 | the chosen neighbour is at minimal distance from `left + top - left_top`; ties go to left, then top, then left-top |
| Paeth.ChoiceIsUnique | png.rb:27-33 | any neighbour that meets the minimal-distance and tie-break conditions is the one chosen, so those conditions characterise the choice |
| Paeth.Predict | png.rb:16-35 | `paeth_predictor`: three components, each the chosen neighbour's component |
| Paeth.PredictPicksANeighbour | png.rb:16-35 | each component of the prediction is the left, top or left-top component |
| Paeth.PredictWithoutRowAbove | png.rb:16-35 | with zero top and left-top, the prediction is the left colour |
| Paeth.PredictWithoutLeftColumn | png.rb:16-35 | with zero left and left-top, the prediction is the top colour |
| Chunks.FindFrom | png.rb:63 | `/#{name}/ =~ bytes`: the first position at or after `from` where the tag occurs, or none when there is no such position |
| Chunks.FirstOccurrence | png.rb:63 | `/#{name}/ =~ bytes`: when some, the tag occurs there and nowhere before; none exactly when the tag occurs nowhere |
| Chunks.FirstOccurrenceAt | png.rb:63 | a position where the tag occurs, with no earlier occurrence, is the first occurrence |
| Chunks.LengthAt | png.rb:62 | `to_hex` of the 4 bytes before a position is their big-endian value |
| Chunks.ChunkAt | png.rb:62-64 | for a tag at `p`, the length is the big-endian value of the 4 bytes before it. The data is the `length` bytes after the tag, or the rest of the file when fewer remain |
| Chunks.LocateChunk | png.rb:61-65 | the chunk is found exactly when the tag's first occurrence is at offset 4 or later, and it is then the chunk at that occurrence |
| Chunks.LocateFramedChunk | png.rb:61-65 | a chunk laid out as length, tag and data (section 3.2 of RFC 2083), with no earlier occurrence of its tag, is read back with its own length and data |
| Chunks.LocateAt | png.rb:61-65 | when the tag first occurs at `p` after a length field of value `n` that fits, the chunk's data is the `n` bytes from `p + 4` |
| Chunks.Chunk.constructor | png.rb:56-59 | `Chunk.new(name, bytes)` keeps the name and leaves the length and data that `LocateChunk` gives |
| Chunks.Chunk.ReadChunk | png.rb:61-65 | `read_chunk` sets `@length` and `@data` to the chunk `LocateChunk` finds |
| Chunks.RegexFrom | png.rb:62 | the leftmost match of `(\H{4})#{name}` at or after `from`: the tag, preceded by 4 bytes none of which is an ASCII hexadecimal digit |
| Chunks.ReadChunkAsWritten | png.rb:62-64 | `read_chunk` as written succeeds exactly when the regular expression matches somewhere. The length is then the big-endian value of the 4 bytes the match captured. The data is `bytes[num + 4, length]` at the first occurrence `num` of the tag, which is never after the match |
| Chunks.AsWrittenAgreesWithoutHexDigits | png.rb:62-64 | when no byte of the first occurrence's length field is a hexadecimal digit, the as-written reading and `LocateChunk` agree |
| Chunks.AsWrittenMissesHexDigitLength | png.rb:62 | a well-formed 65-byte IDAT chunk (length byte 0x41, `A`) is read by `LocateChunk`, but the regular expression does not match it |
| PngHeader.HexStringInjective | png.rb:94 | distinct byte strings have distinct hexadecimal texts |
| PngHeader.SignatureText | png.rb:5 | PNG_FILE_SIGNATURE is the hexadecimal text of the signature bytes 89 50 4E 47 0D 0A 1A 0A |
| PngHeader.IsPng | png.rb:92-95 | `is_png?` holds exactly when the file has at least 8 bytes and they are the signature |
| PngHeader.ReadField | png.rb:79-85 | one `data[i, size].to_hex`: nil exactly when `i` is past the end. Otherwise it is the big-endian value of the field, cut short at the end of the data; a single byte's value for size 1, and 0 when `i` is the end of the data |
| PngHeader.DecodeHeader | png.rb:78-86 | `set_header_info` succeeds exactly when the IHDR data has at least 12 bytes. It reads width and height as 4-byte big-endian values and bit depth, colour type, compression and filter as single bytes. Interlace is the byte at offset 12, or 0 when the data has exactly 12 bytes |
| PngHeader.DecodeEncodedHeader | png.rb:78-86 | decoding the 13 IHDR bytes written for a header gives that header back |
| PngHeader.IsProcessable | png.rb:88-90 | `is_processable?` holds exactly when the signature is present and the colour type is 2 |
| Reconstruction.Average | png.rb:126 | each component is the floor of the mean of the left and top components |
| Reconstruction.Cell | png.rb:116-134 | one arm of the `case` yields an RGB triple with components in 0..255 |
| Reconstruction.Recon | png.rb:113-135 | each reconstructed cell is an RGB triple with components in 0..255 |
| Reconstruction.CellInvertsFilter | png.rb:116-134 | for each filter type 0-4, the `case` applied to a filtered sample with its raw neighbours gives the raw sample back |
| Reconstruction.PaethCellWithoutRowAbove | png.rb:128-133 | with zero top and left-top neighbours, the Paeth arm yields what the Sub arm yields |
| Reconstruction.PaethCellWithoutLeftColumn | png.rb:128-133 | with zero left and left-top neighbours, the Paeth arm yields what the Up arm yields |
| Reconstruction.FilterImage | png.rb:115-134 | the encoder's filtering keeps the image's shape. Each cell is the raw sample minus the filter type's prediction from raw neighbours |
| Reconstruction.ReconInvertsFilter | png.rb:115-134 | defiltering a filtered image gives the raw image back, for any filter type 0-4 on each row |
| Reconstruction.PaethOnFirstRowIsSub | png.rb:128-133 | on the first row, filter type 4 reconstructs the same colours as filter type 1 |
| Reconstruction.PaethOnFirstColumnIsUp | png.rb:128-133 | in the first column, filter type 4 reconstructs the same colour as filter type 2 |
| Reconstruction.ReconUsesEarlierFilters | png.rb:113-135 | the colours of the first rows depend only on those rows' filter types |
| Scanlines.ScanlinesAt | png.rb:106 | the slices of `each_slice(width * 3 + 1)` are the scanlines at offsets `0, stride, 2 * stride, ...`, the last one possibly shorter |
| Scanlines.FilterTypesOf | png.rb:105-107 | `filter_types`: one entry per scanline, enough scanlines to cover the data, and entry `r` is the byte at offset `r * stride` |
| Scanlines.RowColorsOf | png.rb:105-109 | `row_colors`: one row per scanline, enough to cover the data, and row `r` is scanline `r` after its filter-type byte, cut into 3-byte samples |
| Scanlines.Split | png.rb:105-109 | the loop yields every slice's first byte as its filter type and the rest of the slice in 3-byte groups |
| Scanlines.ScanlineLayout | png.rb:106-109 | with exactly `height` scanlines, row `r` has filter type `data[r * stride]` and `width` samples, and sample `c` is the 3 bytes from `r * stride + 1 + 3 * c` |
| Scanlines.SplitIsWellShaped | png.rb:106-109 | with exactly `height` scanlines, the split yields `height` rows of `width` 3-byte samples and one filter type per row |
| Defilter.ReconstructCell | png.rb:116-134 | one step of the `case`, given the already reconstructed neighbours, yields that cell's reconstructed colour |
| Defilter.DefilterRow | png.rb:114-137 | writes every cell of one row with its reconstructed colour and leaves the other rows alone. An unknown filter type writes nothing |
| Defilter.Defilter | png.rb:112-139 | fills a `height` by `width` grid. `ok` holds exactly when every filter type is 0-4 (or the width is 0). Every cell of every row before the first unknown filter type holds its reconstructed colour, and every cell from that row on is still unwritten |
| PngImage.LocateAfterSignature | png.rb:61-65 | in a file that starts with the PNG signature, a tag beginning with `I` (IHDR, IDAT, IEND) is located whenever it occurs at all |
| PngImage.Png.constructor | png.rb:69-76 | `PNG.new` keeps the bytes, reads the IHDR, IDAT and IEND chunks, and sets the header decoded from the IHDR data |
| PngImage.Png.SetHeaderInfo | png.rb:78-86 | sets the header fields to those decoded from the IHDR data |
| PngImage.Png.Write | png.rb:101-139 | splits the inflated data into `height` well-shaped rows and fills a `height` by `width` grid with the reconstructed colours |

## Left out

- Drawing is left out: Tk's canvas, `TkcRectangle`, `Array#code` (png.rb:42-44, 102-103, 136, 140) and the progress bar (png.rb:111, 138). `Write` returns the grid instead.
- Reading the file (`File.open`, png.rb:71), the script's `ARGV` and `exit` (png.rb:144-146) are left out. The constructor takes the file's bytes as a parameter.
- `image_data` (png.rb:97-99) is left out. `Zlib::Inflate` is a foreign call, so `Write` takes the inflated bytes as a parameter.
- Chunks.Chunk.constructor: Ruby raises when the tag is missing or when the regular expression does not match. The data slice `bytes[num + 4, @length]` is never nil, because the tag itself ends at `num + 4`. The model instead requires that `LocateChunk` succeeds.
- Chunks.Chunk.constructor: that requirement also excludes a file whose tag first occurs within its first 4 bytes. Ruby can still read such a file through a later match of the regular expression (for example `IDAT 00 00 00 00 IDAT`). Such a file does not start with the PNG signature, and `LocateAfterSignature` shows that after the signature the case cannot arise.
- PngImage.Png.constructor: Ruby raises on the same failures, and also when the IHDR data is shorter than 12 bytes. The model requires `Openable`.
- PngImage.Png.Write: requires the inflated data to hold exactly `height` scanlines. With other lengths, Ruby works on a ragged last row, or indexes a missing row of `output_colors` and raises. The model does not describe either behaviour.
- Defilter.Defilter: an unknown filter type makes Ruby's `case` yield nil, and drawing that cell raises. The model stops with `ok` false and leaves the rest of the grid unwritten.
- The program does less than RFC 2083, and the model follows the program:
  - only the first IDAT chunk is read, and chunks are not walked from the signature;
  - CRCs are not checked;
  - the IHDR length is not checked for 13;
  - `is_processable?` does not look at bit depth or interlace;
  - a tag may be found inside another chunk's data.
- The regular expression's character-set subtleties are left out. `\H` is modelled as "any byte that is not an ASCII hexadecimal digit".

## Findings

| source | as written | input that shows it | evidently intended | confidence | as-written member | corrected member |
|---|---|---|---|---|---|---|
| png.rb:62 | `(\H{4})#{@name}` demands that none of the 4 length bytes be an ASCII hexadecimal digit | an IDAT chunk of 65 (0x41, `A`) bytes: the length field 00 00 00 41 contains `A`, so the match is nil and `[1]` raises | the length is the 4 bytes before the tag, whatever they are | high, not executed | Chunks.ReadChunkAsWritten | Chunks.LocateChunk |
