/**
 * Locating a chunk of the container (png.rb:53-66, chunk layout of section 3.2
 * of RFC 2083): the 4-byte length, the 4-byte type tag, then the data.
 * A chunk is found by searching the whole file for its tag.
 */
module Chunks {

  import opened Wrappers
  import opened Bytes

  /** CHUNK_TYPE_SIZE: bytes in a type tag, and in the length field before it. */
  const ChunkTypeSize: nat := 4

  const IhdrTag: seq<byte> := [0x49, 0x48, 0x44, 0x52]
  const IdatTag: seq<byte> := [0x49, 0x44, 0x41, 0x54]
  const IendTag: seq<byte> := [0x49, 0x45, 0x4E, 0x44]

  predicate OccursAt(tag: seq<byte>, bytes: seq<byte>, k: nat) {
    k + |tag| <= |bytes| && bytes[k..k + |tag|] == tag
  }

  /** The first occurrence of `tag` at or after `from`. */
  function FindFrom(tag: seq<byte>, bytes: seq<byte>, from: nat): (r: Option<nat>)
    ensures r.Some? ==> from <= r.value && OccursAt(tag, bytes, r.value)
    ensures r.Some? ==> forall k :: from <= k < r.value ==> !OccursAt(tag, bytes, k)
    ensures r.None? ==> forall k :: from <= k ==> !OccursAt(tag, bytes, k)
    decreases |bytes| - from
  {
    if from + |tag| > |bytes| then None
    else if bytes[from..from + |tag|] == tag then Some(from)
    else FindFrom(tag, bytes, from + 1)
  }

  /** `/#{name}/ =~ bytes`: the index of the first occurrence of the tag, or nil. */
  function FirstOccurrence(tag: seq<byte>, bytes: seq<byte>): (r: Option<nat>)
    ensures r.Some? ==> OccursAt(tag, bytes, r.value)
    ensures r.Some? ==> forall k :: 0 <= k < r.value ==> !OccursAt(tag, bytes, k)
    ensures r.None? <==> forall k :: 0 <= k ==> !OccursAt(tag, bytes, k)
  {
    FindFrom(tag, bytes, 0)
  }

  /** What `read_chunk` leaves in `@length` and `@data`. */
  datatype ChunkView = ChunkView(length: nat, data: seq<byte>)

  /** `bytes[q - 4, 4].to_hex`: the big-endian value of the 4 bytes before position `q`. */
  function LengthAt(bytes: seq<byte>, q: nat): (n: nat)
    requires ChunkTypeSize <= q <= |bytes|
    ensures n == BigEndian(bytes[q - ChunkTypeSize..q])
  {
    ToHex(bytes[q - ChunkTypeSize..q])
  }

  /**
   * The chunk whose tag sits at `p`: the length is the big-endian value of the
   * 4 bytes before the tag, and the data is the (at most) `length` bytes after
   * it, cut short at the end of the file.
   */
  function ChunkAt(bytes: seq<byte>, p: nat): (v: ChunkView)
    requires ChunkTypeSize <= p && p + ChunkTypeSize <= |bytes|
    ensures v.length == BigEndian(bytes[p - ChunkTypeSize..p])
    ensures |v.data| <= v.length && p + ChunkTypeSize + |v.data| <= |bytes|
    ensures v.data == bytes[p + ChunkTypeSize..p + ChunkTypeSize + |v.data|]
    ensures p + ChunkTypeSize + v.length <= |bytes| ==> |v.data| == v.length
    ensures p + ChunkTypeSize + v.length > |bytes| ==> p + ChunkTypeSize + |v.data| == |bytes|
  {
    var length := LengthAt(bytes, p);
    ChunkView(length, Slice(bytes, p + ChunkTypeSize, length).value)
  }

  /**
   * `read_chunk`, by the rule its regular expression is meant to implement: the
   * chunk at the first occurrence of the tag. It fails when the tag is missing
   * or has no 4 bytes before it.
   */
  function LocateChunk(tag: seq<byte>, bytes: seq<byte>): (r: Option<ChunkView>)
    requires |tag| == ChunkTypeSize
    ensures r.Some? <==> FirstOccurrence(tag, bytes).Some? && FirstOccurrence(tag, bytes).value >= ChunkTypeSize
    ensures r.Some? ==> r.value == ChunkAt(bytes, FirstOccurrence(tag, bytes).value)
  {
    match FirstOccurrence(tag, bytes)
    case None => None
    case Some(p) =>
      if p < ChunkTypeSize then None else Some(ChunkAt(bytes, p))
  }

  /** The first occurrence is the one with no occurrence before it. */
  lemma FirstOccurrenceAt(tag: seq<byte>, bytes: seq<byte>, at: nat)
    requires OccursAt(tag, bytes, at)
    requires forall k :: 0 <= k < at ==> !OccursAt(tag, bytes, k)
    ensures FirstOccurrence(tag, bytes) == Some(at)
  {
  }

  /**
   * A chunk framed as in section 3.2 of RFC 2083, its 4-byte big-endian length
   * field, tag and data sitting at `at - 4`, `at` and `at + 4`, is read back with
   * its own length and data, provided its tag does not occur earlier in the file.
   */
  lemma LocateFramedChunk(tag: seq<byte>, bytes: seq<byte>, at: nat, data: seq<byte>)
    requires |tag| == ChunkTypeSize
    requires 4 <= at && at + 4 + |data| <= |bytes|
    requires BigEndian(bytes[at - 4..at]) == |data|
    requires bytes[at..at + 4] == tag && bytes[at + 4..at + 4 + |data|] == data
    requires forall k :: 0 <= k < at ==> !OccursAt(tag, bytes, k)
    ensures LocateChunk(tag, bytes) == Some(ChunkView(|data|, data))
  {
    assert OccursAt(tag, bytes, at);
    FirstOccurrenceAt(tag, bytes, at);
    LocateAt(tag, bytes, at, |data|);
  }

  /** The chunk whose tag first occurs at `p` has the length written before it. */
  lemma LocateAt(tag: seq<byte>, bytes: seq<byte>, p: nat, n: nat)
    requires |tag| == ChunkTypeSize
    requires FirstOccurrence(tag, bytes) == Some(p) && p >= 4 && p + 4 + n <= |bytes|
    requires BigEndian(bytes[p - 4..p]) == n
    ensures LocateChunk(tag, bytes) == Some(ChunkView(n, bytes[p + 4..p + 4 + n]))
  {
    var r := LocateChunk(tag, bytes);
    assert r.value.length == n;
    assert r.value.data == bytes[p + 4..p + 4 + n];
  }

  /** `Chunk`: a chunk of the file, read once when it is created. */
  class Chunk {
    const name: seq<byte>
    var length: nat
    var data: seq<byte>

    /** `Chunk.new(name, bytes)` (png.rb:56-59). */
    constructor (name: seq<byte>, bytes: seq<byte>)
      requires |name| == ChunkTypeSize && LocateChunk(name, bytes).Some?
      ensures this.name == name
      ensures ChunkView(length, data) == LocateChunk(name, bytes).value
    {
      this.name := name;
      length := 0;
      data := [];
      new;
      ReadChunk(bytes);
    }

    /** `read_chunk(bytes)` (png.rb:61-65): sets `@length` and `@data`. */
    method ReadChunk(bytes: seq<byte>)
      requires |name| == ChunkTypeSize && LocateChunk(name, bytes).Some?
      modifies this
      ensures ChunkView(length, data) == LocateChunk(name, bytes).value
    {
      var num := FirstOccurrence(name, bytes).value;
      length := LengthAt(bytes, num);
      data := Slice(bytes, num + ChunkTypeSize, length).value;
    }
  }

  // The regular expression as written: `(\H{4})#{name}` needs the four bytes
  // before the tag to be characters other than hexadecimal digits.

  predicate IsHexDigitByte(b: byte) {
    0x30 <= b <= 0x39 || 0x41 <= b <= 0x46 || 0x61 <= b <= 0x66
  }

  predicate RegexMatchesAt(tag: seq<byte>, bytes: seq<byte>, q: nat) {
    q >= 4 && OccursAt(tag, bytes, q) && forall j :: q - 4 <= j < q ==> !IsHexDigitByte(bytes[j])
  }

  /** The tag position of the leftmost match of `(\H{4})#{name}` at or after `from`. */
  function RegexFrom(tag: seq<byte>, bytes: seq<byte>, from: nat): (r: Option<nat>)
    ensures r.Some? ==> from <= r.value && RegexMatchesAt(tag, bytes, r.value)
    ensures r.Some? ==> forall q :: from <= q < r.value ==> !RegexMatchesAt(tag, bytes, q)
    ensures r.None? ==> forall q :: from <= q ==> !RegexMatchesAt(tag, bytes, q)
    decreases |bytes| - from
  {
    if from + |tag| > |bytes| then None
    else if RegexMatchesAt(tag, bytes, from) then Some(from)
    else RegexFrom(tag, bytes, from + 1)
  }

  /**
   * `read_chunk` as png.rb:62-64 writes it: the length from the regular-expression
   * match (nil, and a crash, when there is none), the data from the first
   * occurrence of the tag.
   */
  function ReadChunkAsWritten(tag: seq<byte>, bytes: seq<byte>): (r: Option<ChunkView>)
    requires |tag| == ChunkTypeSize
    ensures r.Some? <==> RegexFrom(tag, bytes, 0).Some?
    ensures r.Some? ==>
              var q := RegexFrom(tag, bytes, 0).value;
              FirstOccurrence(tag, bytes).Some? && FirstOccurrence(tag, bytes).value <= q &&
              r.value.length == BigEndian(bytes[q - ChunkTypeSize..q]) &&
              Some(r.value.data) == Slice(bytes, FirstOccurrence(tag, bytes).value + ChunkTypeSize, r.value.length)
  {
    match RegexFrom(tag, bytes, 0)
    case None => None
    case Some(q) =>
      var length := LengthAt(bytes, q);
      var num := FirstOccurrence(tag, bytes);
      assert OccursAt(tag, bytes, q);
      var p := num.value;
      Some(ChunkView(length, Slice(bytes, p + ChunkTypeSize, length).value))
  }

  /**
   * The two readings agree when the length field of the first occurrence holds
   * no byte that is an ASCII hexadecimal digit.
   */
  lemma AsWrittenAgreesWithoutHexDigits(tag: seq<byte>, bytes: seq<byte>)
    requires |tag| == ChunkTypeSize
    requires FirstOccurrence(tag, bytes).Some? && FirstOccurrence(tag, bytes).value >= 4
    requires var p := FirstOccurrence(tag, bytes).value;
             forall j :: p - 4 <= j < p ==> !IsHexDigitByte(bytes[j])
    ensures ReadChunkAsWritten(tag, bytes) == LocateChunk(tag, bytes)
  {
    var p := FirstOccurrence(tag, bytes).value;
    assert RegexMatchesAt(tag, bytes, p);
    var q := RegexFrom(tag, bytes, 0).value;
    assert q == p;
  }

  /**
   * A well-formed IDAT chunk of 65 (0x41, the character `A`) zero bytes: the
   * intended rule reads it back, the regular expression finds no match at all.
   */
  lemma AsWrittenMissesHexDigitLength()
    ensures var data := seq(65, _ => 0);
            var bytes := [0, 0, 0, 0x41] + IdatTag + data;
            LocateChunk(IdatTag, bytes) == Some(ChunkView(65, data)) &&
            ReadChunkAsWritten(IdatTag, bytes) == None
  {
    var data: seq<byte> := seq(65, _ => 0);
    var lengthField: seq<byte> := [0, 0, 0, 0x41];
    var bytes := lengthField + IdatTag + data;
    assert forall q: nat :: OccursAt(IdatTag, bytes, q) ==> q == 4 by {
      forall q: nat | OccursAt(IdatTag, bytes, q)
        ensures q == 4
      {
        assert bytes[q..q + 4][0] == 0x49;
      }
    }
    assert BigEndian(lengthField) == 65 by {
      assert lengthField[..3] == [0, 0, 0] && [0, 0, 0][..2] == [0, 0] && [0, 0][..1] == [0] && [0][..0] == [];
    }
    assert bytes[0..4] == lengthField && bytes[4..8] == IdatTag && bytes[8..8 + 65] == data;
    LocateFramedChunk(IdatTag, bytes, 4, data);
    assert RegexFrom(IdatTag, bytes, 0) == None;
  }
}
