/**
 * Byte-level helpers of png.rb: the monkey-patched `String#to_hex` and
 * `Array#add`, Ruby's `String#[start, len]` slice and `Enumerable#each_slice`.
 */
module Bytes {

  import opened Wrappers

  /** One octet of a binary (ASCII-8BIT) Ruby string. */
  type byte = x: int | 0 <= x < 256

  const HexDigits: string := "0123456789abcdef"

  predicate IsHexDigit(c: char) {
    '0' <= c <= '9' || 'a' <= c <= 'f' || 'A' <= c <= 'F'
  }

  /** The lower-case hexadecimal text of a byte string, high nibble first (`unpack("H*")`). */
  function HexString(s: seq<byte>): (h: string)
    ensures |h| == 2 * |s|
    ensures forall j :: 0 <= j < |h| ==> IsHexDigit(h[j])
    ensures forall i :: 0 <= i < |s| ==> h[2 * i] == HexDigits[s[i] / 16] && h[2 * i + 1] == HexDigits[s[i] % 16]
  {
    if s == [] then []
    else
      var last := s[|s| - 1];
      HexString(s[..|s| - 1]) + [HexDigits[last / 16], HexDigits[last % 16]]
  }

  /** The value of one hexadecimal digit, either case. */
  function DigitValue(c: char): (v: nat)
    requires IsHexDigit(c)
    ensures v < 16
  {
    if '0' <= c <= '9' then c as int - '0' as int
    else if 'a' <= c <= 'f' then c as int - 'a' as int + 10
    else c as int - 'A' as int + 10
  }

  function Pow16(k: nat): nat {
    if k == 0 then 1 else 16 * Pow16(k - 1)
  }

  /**
   * `String#hex` on a string made only of hexadecimal digits: the digits read in
   * base 16, most significant first, so `k` digits give a value below `16^k`
   * (and the empty string reads as 0).
   */
  function HexValue(h: string): (v: nat)
    requires forall j :: 0 <= j < |h| ==> IsHexDigit(h[j])
    ensures v < Pow16(|h|)
  {
    if h == [] then 0 else HexValue(h[..|h| - 1]) * 16 + DigitValue(h[|h| - 1])
  }

  /** Reference reading of a byte string as a big-endian unsigned integer. */
  function BigEndian(s: seq<byte>): nat {
    if s == [] then 0 else BigEndian(s[..|s| - 1]) * 256 + s[|s| - 1]
  }

  function Pow256(k: nat): nat {
    if k == 0 then 1 else 256 * Pow256(k - 1)
  }

  /** The `k`-byte big-endian encoding of `n` (the writer's side of a length field). */
  function BigEndianBytes(n: nat, k: nat): (s: seq<byte>)
    ensures |s| == k
  {
    if k == 0 then [] else BigEndianBytes(n / 256, k - 1) + [n % 256]
  }

  lemma DigitValueOfHexDigit(k: nat)
    requires k < 16
    ensures IsHexDigit(HexDigits[k]) && DigitValue(HexDigits[k]) == k
  {
  }

  lemma HexValueAppend(h: string, a: char, b: char)
    requires forall j :: 0 <= j < |h| ==> IsHexDigit(h[j])
    requires IsHexDigit(a) && IsHexDigit(b)
    ensures HexValue(h + [a, b]) == HexValue(h) * 256 + DigitValue(a) * 16 + DigitValue(b)
  {
    var h' := h + [a, b];
    assert h'[..|h'| - 1] == h + [a];
    assert (h + [a])[..|h|] == h;
  }

  /** The hexadecimal text of a byte string, read back in base 16, is its big-endian value. */
  lemma {:induction false} HexTextIsBigEndian(s: seq<byte>)
    ensures HexValue(HexString(s)) == BigEndian(s)
  {
    if s != [] {
      var init, last := s[..|s| - 1], s[|s| - 1];
      HexTextIsBigEndian(init);
      DigitValueOfHexDigit(last / 16);
      DigitValueOfHexDigit(last % 16);
      HexValueAppend(HexString(init), HexDigits[last / 16], HexDigits[last % 16]);
    }
  }

  /** A big-endian value of `k` bytes fits in `k` bytes. */
  lemma {:induction false} BigEndianBound(s: seq<byte>)
    ensures BigEndian(s) < Pow256(|s|)
  {
    if s != [] {
      BigEndianBound(s[..|s| - 1]);
    }
  }

  /**
   * `String#to_hex` (png.rb:48-50), `unpack("H*").pop.hex`: the bytes read as one
   * big-endian unsigned integer (section 2.1 of RFC 2083), so `k` bytes give a
   * value below `256^k`.
   */
  function ToHex(s: seq<byte>): (n: nat)
    ensures n == BigEndian(s) && n < Pow256(|s|)
  {
    HexTextIsBigEndian(s);
    BigEndianBound(s);
    HexValue(HexString(s))
  }

  /** Decoding an encoded length gives the length back. */
  lemma {:induction false} BigEndianOfBytes(n: nat, k: nat)
    requires n < Pow256(k)
    ensures BigEndian(BigEndianBytes(n, k)) == n
  {
    if k > 0 {
      var s := BigEndianBytes(n, k);
      assert s[..k - 1] == BigEndianBytes(n / 256, k - 1);
      BigEndianOfBytes(n / 256, k - 1);
    }
  }

  /** Encoding a decoded byte string gives the bytes back. */
  lemma {:induction false} BytesOfBigEndian(s: seq<byte>)
    ensures BigEndianBytes(BigEndian(s), |s|) == s
  {
    if s != [] {
      var init := s[..|s| - 1];
      BytesOfBigEndian(init);
      assert BigEndian(s) / 256 == BigEndian(init);
      assert s == init + [s[|s| - 1]];
    }
  }

  /**
   * `Array#add` (png.rb:38-40): `self.zip(array).map { |a, b| (a + b) % 256 }`.
   * The result has the receiver's length; a shorter argument would make Ruby add
   * `nil`, so callers must pass one at least as long.
   */
  function Add(a: seq<int>, b: seq<int>): (r: seq<int>)
    requires |a| <= |b|
    ensures |r| == |a|
    ensures forall i :: 0 <= i < |a| ==> 0 <= r[i] < 256 && (r[i] - (a[i] + b[i])) % 256 == 0
  {
    seq(|a|, i requires 0 <= i < |a| => (a[i] + b[i]) % 256)
  }

  /** The encoder's side of `Add`: the filtered byte `(raw - p) mod 256` (not in png.rb). */
  function SubMod(raw: seq<byte>, p: seq<int>): (r: seq<byte>)
    requires |raw| <= |p|
    ensures |r| == |raw|
  {
    seq(|raw|, i requires 0 <= i < |raw| => (raw[i] - p[i]) % 256)
  }

  /** Adding the prediction back undoes filtering, whatever the prediction. */
  lemma AddInvertsSubMod(raw: seq<byte>, p: seq<int>)
    requires |raw| <= |p|
    ensures Add(SubMod(raw, p), p) == raw
  {
    var r := Add(SubMod(raw, p), p);
    forall i | 0 <= i < |raw|
      ensures r[i] == raw[i]
    {
      var d := (raw[i] - p[i]) % 256;
      var k := (raw[i] - p[i]) / 256;
      assert raw[i] - p[i] == 256 * k + d;
      assert d + p[i] == raw[i] + 256 * (-k);
    }
  }

  /** Adding zeros leaves a byte string as it is. */
  lemma AddZero(s: seq<byte>, z: seq<int>)
    requires |s| <= |z|
    requires forall i :: 0 <= i < |z| ==> z[i] == 0
    ensures Add(s, z) == s
  {
  }

  /**
   * Ruby's `String#[start, len]`: `nil` when `start` is past the end, otherwise
   * the (possibly shorter) run of at most `len` bytes from `start`.
   */
  function Slice(s: seq<byte>, start: nat, len: nat): (r: Option<seq<byte>>)
    ensures r.Some? <==> start <= |s|
    ensures r.Some? ==> |r.value| <= len && start + |r.value| <= |s| && r.value == s[start..start + |r.value|]
    ensures r.Some? && start + len <= |s| ==> |r.value| == len
    ensures r.Some? && start + len > |s| ==> r.value == s[start..]
  {
    if start > |s| then None
    else if start + len <= |s| then Some(s[start..start + len])
    else Some(s[start..])
  }

  function Flatten<T>(ss: seq<seq<T>>): seq<T> {
    if ss == [] then [] else ss[0] + Flatten(ss[1..])
  }

  /**
   * `Enumerable#each_slice(n)`: consecutive pieces of `n` elements, the last
   * one possibly shorter, none of them empty.
   */
  function EachSlice<T>(s: seq<T>, n: nat): (r: seq<seq<T>>)
    requires n > 0
    ensures forall i :: 0 <= i < |r| ==> 0 < |r[i]| <= n
    ensures forall i :: 0 <= i < |r| - 1 ==> |r[i]| == n
    decreases |s|
  {
    if s == [] then []
    else if |s| <= n then [s]
    else [s[..n]] + EachSlice(s[n..], n)
  }

  /** Slicing gives no slices exactly for the empty sequence, and enough slices to cover it. */
  lemma {:induction false} EachSliceLength<T>(s: seq<T>, n: nat)
    requires n > 0
    ensures |EachSlice(s, n)| == 0 <==> s == []
    ensures |s| <= Mul(|EachSlice(s, n)|, n)
    decreases |s|
  {
    if |s| > n {
      assert EachSlice(s, n) == [s[..n]] + EachSlice(s[n..], n);
      EachSliceLength(s[n..], n);
    } else if s != [] {
      assert EachSlice(s, n) == [s];
    }
  }

  /** Slice `i` starts at `i * n` and runs for `n` elements, or to the end of the sequence. */
  lemma {:induction false} EachSliceStart<T>(s: seq<T>, n: nat, i: nat)
    requires n > 0 && i < |EachSlice(s, n)|
    ensures Mul(i, n) < |s|
    ensures EachSlice(s, n)[i] == s[Mul(i, n)..if Mul(i, n) + n <= |s| then Mul(i, n) + n else |s|]
    decreases |s|
  {
    if |s| <= n {
      assert EachSlice(s, n) == [s];
    } else {
      var t := s[n..];
      assert EachSlice(s, n) == [s[..n]] + EachSlice(t, n);
      if i > 0 {
        EachSliceStart(t, n, i - 1);
        assert EachSlice(s, n)[i] == EachSlice(t, n)[i - 1];
        var a := Mul(i - 1, n);
        assert Mul(i, n) == a + n;
        assert t == s[n..|s|];
        SliceOfSlice(s, n, |s|, a, if a + n <= |t| then a + n else |t|);
      }
    }
  }

  /** The slices, concatenated in order, give back the sequence. */
  lemma {:induction false} EachSliceFlatten<T>(s: seq<T>, n: nat)
    requires n > 0
    ensures Flatten(EachSlice(s, n)) == s
    decreases |s|
  {
    if |s| > n {
      var r := EachSlice(s, n);
      assert r == [s[..n]] + EachSlice(s[n..], n);
      assert r[1..] == EachSlice(s[n..], n);
      EachSliceFlatten(s[n..], n);
      assert s == s[..n] + s[n..];
    }
  }

  /** `k * n` as `k` additions of `n`, so that slice offsets stay linear for the verifier. */
  function Mul(k: nat, n: nat): nat {
    if k == 0 then 0 else Mul(k - 1, n) + n
  }

  lemma {:induction false} MulIsProduct(k: nat, n: nat)
    ensures Mul(k, n) == k * n
  {
    if k > 0 {
      MulIsProduct(k - 1, n);
      assert (k - 1) * n + n == k * n;
    }
  }

  lemma {:induction false} MulGrows(i: nat, k: nat, n: nat)
    requires i < k
    ensures Mul(i, n) + n <= Mul(k, n)
  {
    if i + 1 < k {
      MulGrows(i, k - 1, n);
    }
  }

  lemma SliceOfSlice<T>(s: seq<T>, a: nat, b: nat, i: nat, j: nat)
    requires a <= b <= |s| && i <= j <= b - a
    ensures s[a..b][i..j] == s[a + i..a + j]
  {
    forall k | 0 <= k < j - i
      ensures s[a..b][i..j][k] == s[a + i..a + j][k]
    {
      assert s[a..b][i..j][k] == s[a..b][i + k] == s[a + i + k];
    }
  }

  /** Cutting `k * n` elements into slices of `n` gives `k` slices. */
  lemma {:induction false} EachSliceCount<T>(s: seq<T>, n: nat, k: nat)
    requires n > 0 && |s| == Mul(k, n)
    ensures |EachSlice(s, n)| == k
  {
    if k > 1 {
      MulGrows(1, k, n);
      var t := s[n..];
      assert EachSlice(s, n) == [s[..n]] + EachSlice(t, n);
      EachSliceCount(t, n, k - 1);
    } else if k == 1 {
      assert EachSlice(s, n) == [s];
    }
  }

  /** The `i`-th of those slices is the run of `n` elements from `i * n`. */
  lemma {:induction false} EachSliceAt<T>(s: seq<T>, n: nat, k: nat, i: nat)
    requires n > 0 && |s| == Mul(k, n) && i < k
    ensures |EachSlice(s, n)| == k && Mul(i, n) + n <= |s|
    ensures EachSlice(s, n)[i] == s[Mul(i, n)..Mul(i, n) + n]
  {
    EachSliceCount(s, n, k);
    MulGrows(i, k, n);
    if k == 1 {
      assert EachSlice(s, n) == [s];
    } else {
      MulGrows(1, k, n);
      var t := s[n..];
      assert EachSlice(s, n) == [s[..n]] + EachSlice(t, n);
      if i > 0 {
        EachSliceAt(t, n, k - 1, i - 1);
        assert EachSlice(s, n)[i] == EachSlice(t, n)[i - 1];
        SliceOfSlice(s, n, |s|, Mul(i - 1, n), Mul(i - 1, n) + n);
      }
    }
  }
}
