/**
 * The signature check and the IHDR decoder of png.rb:5-14 and 78-95
 * (sections 3.1 and 4.1.1 of RFC 2083).
 */
module PngHeader {

  import opened Wrappers
  import opened Bytes

  /** PNG_FILE_SIGNATURE: the hexadecimal text of the first 8 bytes of a PNG file. */
  const PngFileSignature: string := "89504e470d0a1a0a"

  /** The same signature as bytes: 89 50 4E 47 0D 0A 1A 0A. */
  const SignatureBytes: seq<byte> := [0x89, 0x50, 0x4E, 0x47, 0x0D, 0x0A, 0x1A, 0x0A]

  /** Sizes of the IHDR fields, in the order they are stored. */
  const IhdrIwSize: nat := 4
  const IhdrIhSize: nat := 4
  const IhdrBdSize: nat := 1
  const IhdrCtSize: nat := 1
  const IhdrCmSize: nat := 1
  const IhdrFmSize: nat := 1
  const IhdrImSize: nat := 1

  /** The fields `set_header_info` stores on the PNG object. */
  datatype Header = Header(
    width: nat,
    height: nat,
    bitDepth: nat,
    colorType: nat,
    compressionMethod: nat,
    filterMethod: nat,
    interlaceMethod: nat)

  lemma HexDigitsInjective(x: nat, y: nat)
    requires x < 16 && y < 16 && HexDigits[x] == HexDigits[y]
    ensures x == y
  {
    DigitValueOfHexDigit(x);
    DigitValueOfHexDigit(y);
  }

  /** Distinct byte strings have distinct hexadecimal texts. */
  lemma HexStringInjective(a: seq<byte>, b: seq<byte>)
    requires HexString(a) == HexString(b)
    ensures a == b
  {
    var h := HexString(a);
    forall i | 0 <= i < |a|
      ensures a[i] == b[i]
    {
      assert h[2 * i] == HexDigits[a[i] / 16] == HexDigits[b[i] / 16];
      assert h[2 * i + 1] == HexDigits[a[i] % 16] == HexDigits[b[i] % 16];
      HexDigitsInjective(a[i] / 16, b[i] / 16);
      HexDigitsInjective(a[i] % 16, b[i] % 16);
    }
  }

  lemma SignatureText()
    ensures HexString(SignatureBytes) == PngFileSignature
  {
    var h := HexString(SignatureBytes);
    forall i | 0 <= i < 8
      ensures h[2 * i] == PngFileSignature[2 * i] && h[2 * i + 1] == PngFileSignature[2 * i + 1]
    {
      if i == 0 {} else if i == 1 {} else if i == 2 {} else if i == 3 {}
      else if i == 4 {} else if i == 5 {} else if i == 6 {} else {}
    }
    forall j | 0 <= j < 16
      ensures h[j] == PngFileSignature[j]
    {
      var i := j / 2;
      assert j == 2 * i || j == 2 * i + 1;
    }
  }

  /**
   * `is_png?` (png.rb:92-95): the hexadecimal text of the first (up to) 8 bytes
   * equals PNG_FILE_SIGNATURE, i.e. the file starts with the 8 signature bytes.
   */
  function IsPng(bytes: seq<byte>): (r: bool)
    ensures r <==> |bytes| >= 8 && bytes[..8] == SignatureBytes
  {
    var head := if |bytes| < 8 then bytes else bytes[..8];
    SignatureText();
    if HexString(head) == PngFileSignature then
      HexStringInjective(head, SignatureBytes);
      true
    else
      false
  }

  /** One field: `data[start, size].to_hex`, nil when `start` is past the end. */
  function ReadField(data: seq<byte>, start: nat, size: nat): (r: Option<nat>)
    ensures r.Some? <==> start <= |data|
    ensures start + size <= |data| ==> r == Some(BigEndian(data[start..start + size]))
    ensures start + size <= |data| && size == 1 ==> r == Some(data[start])
    ensures start == |data| ==> r == Some(0)
    ensures start <= |data| ==>
              r == Some(BigEndian(data[start..if start + size <= |data| then start + size else |data|]))
  {
    match Slice(data, start, size)
    case None => None
    case Some(field) =>
      assert field == data[start..if start + size <= |data| then start + size else |data|];
      if |field| == 1 then
        OneByteIsItself(field);
        Some(ToHex(field))
      else
        Some(ToHex(field))
  }

  /**
   * `set_header_info` (png.rb:78-86): the seven fields at the running offsets
   * 0, 4, 8, 9, 10, 11 and 12 of the IHDR data. A read that starts past the end
   * yields nil and `nil.to_hex` raises, so the data needs at least 12 bytes.
   */
  function DecodeHeader(data: seq<byte>): (h: Option<Header>)
    ensures h.Some? <==> |data| >= 12
    ensures |data| >= 13 ==> h == Some(Header(
              BigEndian(data[0..4]), BigEndian(data[4..8]),
              data[8], data[9], data[10], data[11], data[12]))
    ensures |data| == 12 ==> h == Some(Header(
              BigEndian(data[0..4]), BigEndian(data[4..8]),
              data[8], data[9], data[10], data[11], 0))
  {
    var i0 := 0;
    var i1 := i0 + IhdrIwSize;
    var i2 := i1 + IhdrIhSize;
    var i3 := i2 + IhdrBdSize;
    var i4 := i3 + IhdrCtSize;
    var i5 := i4 + IhdrCmSize;
    var i6 := i5 + IhdrFmSize;
    var width := ReadField(data, i0, IhdrIwSize);
    var height := ReadField(data, i1, IhdrIhSize);
    var bitDepth := ReadField(data, i2, IhdrBdSize);
    var colorType := ReadField(data, i3, IhdrCtSize);
    var compression := ReadField(data, i4, IhdrCmSize);
    var filter := ReadField(data, i5, IhdrFmSize);
    var interlace := ReadField(data, i6, IhdrImSize);
    if width.None? || height.None? || bitDepth.None? || colorType.None? ||
       compression.None? || filter.None? || interlace.None?
    then None
    else
      Some(Header(width.value, height.value, bitDepth.value, colorType.value,
                  compression.value, filter.value, interlace.value))
  }

  lemma OneByteIsItself(s: seq<byte>)
    requires |s| == 1
    ensures BigEndian(s) == s[0]
  {
    assert s[..0] == [];
  }

  /** The 13-byte IHDR data of a header whose fields fit their sizes. */
  function EncodeHeader(h: Header): (data: seq<byte>)
    requires h.width < Pow256(4) && h.height < Pow256(4)
    requires h.bitDepth < 256 && h.colorType < 256 && h.compressionMethod < 256
    requires h.filterMethod < 256 && h.interlaceMethod < 256
    ensures |data| == 13
  {
    BigEndianBytes(h.width, 4) + BigEndianBytes(h.height, 4) +
      [h.bitDepth, h.colorType, h.compressionMethod, h.filterMethod, h.interlaceMethod]
  }

  /** Decoding the IHDR data written for a header gives that header back. */
  lemma DecodeEncodedHeader(h: Header)
    requires h.width < Pow256(4) && h.height < Pow256(4)
    requires h.bitDepth < 256 && h.colorType < 256 && h.compressionMethod < 256
    requires h.filterMethod < 256 && h.interlaceMethod < 256
    ensures DecodeHeader(EncodeHeader(h)) == Some(h)
  {
    var data := EncodeHeader(h);
    assert data[0..4] == BigEndianBytes(h.width, 4);
    assert data[4..8] == BigEndianBytes(h.height, 4);
    BigEndianOfBytes(h.width, 4);
    BigEndianOfBytes(h.height, 4);
  }

  /** `is_processable?` (png.rb:88-90): a PNG signature and colour type 2 (truecolour). */
  function IsProcessable(bytes: seq<byte>, header: Header): (r: bool)
    ensures r <==> |bytes| >= 8 && bytes[..8] == SignatureBytes && header.colorType == 2
  {
    IsPng(bytes) && header.colorType == 2
  }
}
