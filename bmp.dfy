/**
 `write_bmp_header` of the fractal program: the 54-byte Windows BMP header
 (a 14-byte BITMAPFILEHEADER followed by a 40-byte BITMAPINFOHEADER) that 15
 `fwrite` calls emit as 17 little-endian objects.
 */
module Bmp {
  import opened Wrappers
  import opened CInts

  /** One object handed to `fwrite`: `size` bytes holding `value`, written
      least significant byte first. */
  datatype Field = Field(size: nat, value: nat)

  /** The header's fields, in the order they are written. */
  datatype BmpHeader = BmpHeader(
    fileSize: u32, reserved1: u16, reserved2: u16, offset: u32,
    dibSize: u32, width: u32, height: u32, planes: u16, bits: u16,
    compression: u32, imageSize: u32, xRes: u32, yRes: u32,
    nColors: u32, importantColors: u32)

  const HEADER_SIZE: nat := 54

  /** Size of each of the 17 objects, and the byte offset at which each one
      starts (the last entry is the end of the header). */
  const HEADER_SIZES: seq<nat> := [1, 1, 4, 2, 2, 4, 4, 4, 4, 2, 2, 4, 4, 4, 4, 4, 4]
  const HEADER_OFFSETS: seq<nat> := [0, 1, 2, 6, 8, 10, 14, 18, 22, 26, 28, 30, 34, 38, 42, 46, 50, 54]

  function Pow256(n: nat): (p: nat)
    ensures p > 0
  {
    if n == 0 then 1 else 256 * Pow256(n - 1)
  }

  /** The low n bytes of v, least significant first. */
  function LE(n: nat, v: nat): (bs: seq<byte>)
    ensures |bs| == n
  {
    if n == 0 then [] else [v % 256] + LE(n - 1, v / 256)
  }

  /** The number whose little-endian bytes are `bs`. */
  function FromLE(bs: seq<byte>): (v: nat)
    ensures v < Pow256(|bs|)
  {
    if bs == [] then 0 else bs[0] + 256 * FromLE(bs[1..])
  }

  /** Reading back n little-endian bytes gives the value written. */
  lemma {:induction false} FromLEOfLE(n: nat, v: nat)
    requires v < Pow256(n)
    ensures FromLE(LE(n, v)) == v
  {
    if n > 0 {
      var q, r := v / 256, v % 256;
      var bs := LE(n, v);
      assert bs == [r] + LE(n - 1, q);
      assert bs[1..] == LE(n - 1, q);
      DivBelow(v, Pow256(n - 1), 256);
      FromLEOfLE(n - 1, q);
      assert FromLE(bs) == r + 256 * q;
    }
  }

  /** Writing back the value read from some bytes reproduces those bytes. */
  lemma {:induction false} LEOfFromLE(bs: seq<byte>)
    ensures LE(|bs|, FromLE(bs)) == bs
  {
    if bs != [] {
      LEOfFromLE(bs[1..]);
      var v := FromLE(bs);
      assert v % 256 == bs[0] && v / 256 == FromLE(bs[1..]);
      assert bs == [bs[0]] + bs[1..];
    }
  }

  /** A zero field is written as zero bytes. */
  lemma {:induction false} LEZero(n: nat)
    ensures forall i :: 0 <= i < n ==> LE(n, 0)[i] == 0
  {
    if n > 0 {
      LEZero(n - 1);
      assert LE(n, 0) == [0] + LE(n - 1, 0);
    }
  }

  /** Concatenation of the objects' bytes. */
  function Emit(fs: seq<Field>): seq<byte>
  {
    if fs == [] then [] else LE(fs[0].size, fs[0].value) + Emit(fs[1..])
  }

  function Sizes(fs: seq<Field>): seq<nat>
  {
    seq(|fs|, i requires 0 <= i < |fs| => fs[i].size)
  }

  /** Offset of object k: the sizes of the objects before it, added up. */
  function OffsetOf(sizes: seq<nat>, k: nat): nat
    requires k <= |sizes|
  {
    if k == 0 then 0 else OffsetOf(sizes, k - 1) + sizes[k - 1]
  }

  lemma {:induction false} OffsetFront(sizes: seq<nat>, k: nat)
    requires k < |sizes|
    ensures OffsetOf(sizes, k + 1) == sizes[0] + OffsetOf(sizes[1..], k)
  {
    if k > 0 {
      OffsetFront(sizes, k - 1);
    }
  }

  lemma SizesTail(fs: seq<Field>)
    requires fs != []
    ensures Sizes(fs[1..]) == Sizes(fs)[1..]
  {
  }
  lemma {:induction false} EmitLength(fs: seq<Field>)
    ensures |Emit(fs)| == OffsetOf(Sizes(fs), |fs|)
  {
    if fs != [] {
      EmitLength(fs[1..]);
      SizesTail(fs);
      OffsetFront(Sizes(fs), |fs| - 1);
    }
  }
  lemma SliceAfter<T>(a: seq<T>, rest: seq<T>, o: nat, n: nat)
    requires o + n <= |rest|
    ensures (a + rest)[|a| + o..|a| + o + n] == rest[o..o + n]
  {
  }

  lemma SliceFront<T>(a: seq<T>, rest: seq<T>)
    ensures (a + rest)[0..|a|] == a
  {
  }

  /** Object k of a sequence of `fwrite`s occupies the bytes from its offset
      on, as its own little-endian encoding. */
  lemma {:induction false} EmitAt(fs: seq<Field>, k: nat)
    requires k < |fs|
    ensures OffsetOf(Sizes(fs), k) + fs[k].size <= |Emit(fs)|
    ensures Emit(fs)[OffsetOf(Sizes(fs), k)..OffsetOf(Sizes(fs), k) + fs[k].size] == LE(fs[k].size, fs[k].value)
  {
    var a := LE(fs[0].size, fs[0].value);
    var tail := fs[1..];
    var rest := Emit(tail);
    assert Emit(fs) == a + rest;
    if k == 0 {
      SliceFront(a, rest);
    } else {
      var o := OffsetOf(Sizes(tail), k - 1);
      assert OffsetOf(Sizes(fs), k) == |a| + o by {
        SizesTail(fs);
        OffsetFront(Sizes(fs), k - 1);
      }
      assert tail[k - 1] == fs[k];
      EmitAt(tail, k - 1);
      SliceAfter(a, rest, o, fs[k].size);
    }
  }

  lemma {:induction false} HeaderOffsetsUpTo(k: nat)
    requires k <= |HEADER_SIZES|
    ensures OffsetOf(HEADER_SIZES, k) == HEADER_OFFSETS[k]
  {
    if k > 0 {
      HeaderOffsetsUpTo(k - 1);
    }
  }

  /** The offsets table: object k spans HEADER_SIZES[k] bytes from
      HEADER_OFFSETS[k], the objects follow one another without gaps, and the
      last one ends at byte 54. */
  lemma OffsetsAt(k: nat)
    requires k < 17
    ensures HEADER_OFFSETS[k] + HEADER_SIZES[k] == HEADER_OFFSETS[k + 1] <= HEADER_SIZE
  {
    HeaderOffsetsUpTo(k);
    HeaderOffsetsUpTo(k + 1);
  }

  /** Value of object k of the header: "B", "M", then the header's fields in
      the order of the `fwrite` calls. */
  function FieldValue(h: BmpHeader, k: nat): (v: nat)
    requires k < 17
    ensures v < Pow256(HEADER_SIZES[k])
  {
    assert Pow256(1) == 0x100 && Pow256(2) == 0x1_0000 && Pow256(4) == TWO_TO_32;
    if k == 0 then 0x42 else if k == 1 then 0x4D
    else if k == 2 then h.fileSize else if k == 3 then h.reserved1
    else if k == 4 then h.reserved2 else if k == 5 then h.offset
    else if k == 6 then h.dibSize else if k == 7 then h.width
    else if k == 8 then h.height else if k == 9 then h.planes
    else if k == 10 then h.bits else if k == 11 then h.compression
    else if k == 12 then h.imageSize else if k == 13 then h.xRes
    else if k == 14 then h.yRes else if k == 15 then h.nColors
    else h.importantColors
  }

  /** The 17 objects of the header, as the 15 `fwrite` calls pass them. */
  function HeaderFields(h: BmpHeader): (fs: seq<Field>)
    ensures |fs| == 17 && Sizes(fs) == HEADER_SIZES
  {
    seq(17, k requires 0 <= k < 17 => Field(HEADER_SIZES[k], FieldValue(h, k)))
  }

  function EncodeHeader(h: BmpHeader): seq<byte>
  {
    Emit(HeaderFields(h))
  }

  /** In any run of 17 objects with the header's sizes, object k occupies
      bytes HEADER_OFFSETS[k] up to HEADER_OFFSETS[k + 1], little-endian, and
      the whole run is 54 bytes. */
  lemma FieldBytes(fs: seq<Field>, k: nat)
    requires Sizes(fs) == HEADER_SIZES && k < |HEADER_SIZES|
    ensures |Emit(fs)| == HEADER_SIZE
    ensures Emit(fs)[HEADER_OFFSETS[k]..HEADER_OFFSETS[k + 1]] == LE(HEADER_SIZES[k], fs[k].value)
  {
    EmitLength(fs);
    EmitAt(fs, k);
    HeaderOffsetsUpTo(k);
    HeaderOffsetsUpTo(k + 1);
    HeaderOffsetsUpTo(|HEADER_SIZES|);
  }

  /** The header is 17 objects and 54 bytes, and object k lies at byte
      HEADER_OFFSETS[k], little-endian. */
  lemma HeaderLayout(h: BmpHeader)
    ensures |HeaderFields(h)| == 17
    ensures |EncodeHeader(h)| == HEADER_SIZE
    ensures forall k :: 0 <= k < 17 ==>
      EncodeHeader(h)[HEADER_OFFSETS[k]..HEADER_OFFSETS[k + 1]] == LE(HEADER_SIZES[k], FieldValue(h, k))
  {
    var fs := HeaderFields(h);
    FieldBytes(fs, 0);
    forall k | 0 <= k < 17
      ensures Emit(fs)[HEADER_OFFSETS[k]..HEADER_OFFSETS[k + 1]] == LE(HEADER_SIZES[k], FieldValue(h, k))
    {
      FieldBytes(fs, k);
    }
  }

  /** The value of object k, read back little-endian at its offset. */
  function ReadField(bs: seq<byte>, k: nat): (v: nat)
    requires |bs| == HEADER_SIZE && k < 17
    ensures v < Pow256(HEADER_SIZES[k])
  {
    OffsetsAt(k);
    FromLE(bs[HEADER_OFFSETS[k]..HEADER_OFFSETS[k + 1]])
  }

  /** A 4-byte object read back as an `unsigned int`. */
  function Read32(bs: seq<byte>, k: nat): (v: u32)
    requires |bs| == HEADER_SIZE && k < 17 && HEADER_SIZES[k] == 4
    ensures v == ReadField(bs, k)
  {
    assert Pow256(4) == TWO_TO_32;
    ReadField(bs, k)
  }

  /** A 2-byte object read back as an `unsigned short`. */
  function Read16(bs: seq<byte>, k: nat): (v: u16)
    requires |bs| == HEADER_SIZE && k < 17 && HEADER_SIZES[k] == 2
    ensures v == ReadField(bs, k)
  {
    assert Pow256(2) == 0x1_0000;
    ReadField(bs, k)
  }

  /** Reads a header back: "BM" at bytes 0-1, then every field at its offset
      (file size at 2, reserved shorts at 6 and 8, pixel-data offset at 10,
      info-header size at 14, width at 18, height at 22, planes at 26, bits
      per pixel at 28, compression at 30, image size at 34, resolutions at 38
      and 42, colour counts at 46 and 50). */
  function DecodeHeader(bs: seq<byte>): (r: Option<BmpHeader>)
    ensures r.Some? ==> |bs| == HEADER_SIZE && bs[0] == 0x42 && bs[1] == 0x4D
  {
    if |bs| != HEADER_SIZE || bs[0] != 0x42 || bs[1] != 0x4D then None
    else
      Some(BmpHeader(
        Read32(bs, 2), Read16(bs, 3), Read16(bs, 4), Read32(bs, 5),
        Read32(bs, 6), Read32(bs, 7), Read32(bs, 8), Read16(bs, 9),
        Read16(bs, 10), Read32(bs, 11), Read32(bs, 12), Read32(bs, 13),
        Read32(bs, 14), Read32(bs, 15), Read32(bs, 16)))
  }

  lemma SingleByte(bs: seq<byte>, i: nat)
    requires i < |bs|
    ensures FromLE(bs[i..i + 1]) == bs[i]
  {
    assert bs[i..i + 1][1..] == [];
  }

  /** Object k of an encoded header reads back as the field written there. */
  lemma ReadHeaderField(h: BmpHeader, k: nat)
    requires k < 17
    ensures |EncodeHeader(h)| == HEADER_SIZE
    ensures ReadField(EncodeHeader(h), k) == FieldValue(h, k)
  {
    var fs := HeaderFields(h);
    FieldBytes(fs, k);
    FromLEOfLE(fs[k].size, fs[k].value);
  }

  /** Every header survives being written and read back, so the layout puts
      each field at its fixed offset and no two headers share an encoding. */
  lemma DecodeEncode(h: BmpHeader)
    ensures DecodeHeader(EncodeHeader(h)) == Some(h)
  {
    var bs := EncodeHeader(h);
    ReadHeaderField(h, 0);
    ReadHeaderField(h, 1);
    ReadHeaderField(h, 2);
    ReadHeaderField(h, 3);
    ReadHeaderField(h, 4);
    ReadHeaderField(h, 5);
    ReadHeaderField(h, 6);
    ReadHeaderField(h, 7);
    ReadHeaderField(h, 8);
    ReadHeaderField(h, 9);
    ReadHeaderField(h, 10);
    ReadHeaderField(h, 11);
    ReadHeaderField(h, 12);
    ReadHeaderField(h, 13);
    ReadHeaderField(h, 14);
    ReadHeaderField(h, 15);
    ReadHeaderField(h, 16);
    SingleByte(bs, 0);
    SingleByte(bs, 1);
  }

  /** HEADER_OFFSETS[k], known to lie inside the header. */
  function OffsetAt(k: nat): (o: nat)
    requires k <= 17
    ensures o == HEADER_OFFSETS[k] <= HEADER_SIZE
  {
    if k == 17 then HEADER_SIZE else OffsetsAt(k); HEADER_OFFSETS[k]
  }

  /** Two 54-byte strings agree on object k. */
  predicate SliceAgree(a: seq<byte>, b: seq<byte>, k: nat)
    requires |a| == |b| == HEADER_SIZE && k < 17
  {
    OffsetsAt(k);
    a[HEADER_OFFSETS[k]..HEADER_OFFSETS[k + 1]] == b[HEADER_OFFSETS[k]..HEADER_OFFSETS[k + 1]]
  }

  lemma {:induction false} PrefixesAgree(a: seq<byte>, b: seq<byte>, k: nat)
    requires |a| == |b| == HEADER_SIZE && k <= 17
    requires forall j :: 0 <= j < k ==> SliceAgree(a, b, j)
    ensures a[..OffsetAt(k)] == b[..OffsetAt(k)]
  {
    if k > 0 {
      PrefixesAgree(a, b, k - 1);
      OffsetsAt(k - 1);
      var lo, hi := HEADER_OFFSETS[k - 1], HEADER_OFFSETS[k];
      assert SliceAgree(a, b, k - 1);
      assert a[..hi] == a[..lo] + a[lo..hi];
      assert b[..hi] == b[..lo] + b[lo..hi];
    }
  }

  lemma DecodedField(bs: seq<byte>, h: BmpHeader, k: nat)
    requires DecodeHeader(bs) == Some(h) && k < 17
    ensures FieldValue(h, k) == ReadField(bs, k)
  {
    if k < 2 {
      SingleByte(bs, k);
    }
  }

  /** Two 54-byte strings that agree on every object are equal. */
  lemma AllSlicesAgree(a: seq<byte>, b: seq<byte>)
    requires |a| == |b| == HEADER_SIZE
    requires forall j :: 0 <= j < 17 ==> SliceAgree(a, b, j)
    ensures a == b
  {
    PrefixesAgree(a, b, 17);
    assert a == a[..OffsetAt(17)] && b == b[..OffsetAt(17)];
  }

  lemma DecodedSlice(bs: seq<byte>, h: BmpHeader, k: nat)
    requires DecodeHeader(bs) == Some(h) && k < 17
    ensures |EncodeHeader(h)| == HEADER_SIZE
    ensures SliceAgree(EncodeHeader(h), bs, k)
  {
    FieldBytes(HeaderFields(h), k);
    OffsetsAt(k);
    LEOfFromLE(bs[HEADER_OFFSETS[k]..HEADER_OFFSETS[k + 1]]);
    DecodedField(bs, h, k);
  }

  /** Every 54 bytes that decode to a header are that header's encoding:
      together with DecodeEncode, DecodeHeader and EncodeHeader are inverse
      bijections between headers and the byte strings that start with "BM". */
  lemma EncodeDecode(bs: seq<byte>, h: BmpHeader)
    requires DecodeHeader(bs) == Some(h)
    ensures EncodeHeader(h) == bs
  {
    var e := EncodeHeader(h);
    ReadHeaderField(h, 0);
    forall k | 0 <= k < 17
      ensures SliceAgree(e, bs, k)
    {
      DecodedSlice(bs, h, k);
    }
    AllSlicesAgree(e, bs);
  }

  lemma EncodeInjective(h1: BmpHeader, h2: BmpHeader)
    requires EncodeHeader(h1) == EncodeHeader(h2)
    ensures h1 == h2
  {
    DecodeEncode(h1);
    DecodeEncode(h2);
  }

  /** `adjusted_width`: `width` rounded up to a multiple of 4, computed with
      C's `%` and stored in an `unsigned int`. */
  function AdjustedWidth(width: int32): u32
  {
    U32(width + (if CRem(width, 4) == 0 then 0 else 4 - CRem(width, 4)))
  }

  /** For a non-negative width, `adjusted_width` is the smallest multiple of 4
      that is at least `width`. */
  lemma AdjustedWidthRoundsUp(width: int32, m: int)
    requires width >= 0
    ensures AdjustedWidth(width) % 4 == 0
    ensures width <= AdjustedWidth(width) < width + 4
    ensures m >= width && m % 4 == 0 ==> AdjustedWidth(width) <= m
  {
    var aw := width + (if width % 4 == 0 then 0 else 4 - width % 4);
    assert aw < TWO_TO_32;
    assert AdjustedWidth(width) == aw;
  }

  /** The header `write_bmp_header(f, width, height)` writes. The products are
      computed in 32-bit unsigned arithmetic (signed overflow taken to wrap):
      `filesize` counts rows padded to `adjusted_width` pixels, `image_size`
      counts unpadded rows. */
  function MakeHeader(width: int32, height: int32): BmpHeader
  {
    var adjusted := AdjustedWidth(width);
    BmpHeader(
      fileSize := U32(54 + adjusted * height * 3),
      reserved1 := 0, reserved2 := 0,
      offset := 54,
      dibSize := 40,
      width := U32(width), height := U32(height),
      planes := 1, bits := 24,
      compression := 0,
      imageSize := U32(width * height * 3),
      xRes := U32(0), yRes := U32(0),
      nColors := 0, importantColors := 0)
  }

  /** The constant bytes of the written header: "BM", the pixel data offset
      54, the info header size 40, one plane of 24 bits; the width and height
      are stored as their 32-bit two's-complement patterns (the values
      themselves when non-negative). Each field is little-endian at its
      offset. */
  lemma MakeHeaderBytes(width: int32, height: int32)
    ensures var bs := EncodeHeader(MakeHeader(width, height));
      && |bs| == HEADER_SIZE
      && bs[0] == 0x42 && bs[1] == 0x4D
      && bs[10..14] == LE(4, 54)
      && bs[14..18] == LE(4, 40)
      && bs[18..22] == LE(4, U32(width)) && bs[22..26] == LE(4, U32(height))
      && bs[26..28] == LE(2, 1) && bs[28..30] == LE(2, 24)
  {
    var h := MakeHeader(width, height);
    assert h.offset == 54 && h.dibSize == 40 && h.width == U32(width)
      && h.height == U32(height) && h.planes == 1 && h.bits == 24;
    ConstantBytes(h);
  }

  lemma ConstantBytes(h: BmpHeader)
    ensures var bs := EncodeHeader(h);
      && |bs| == HEADER_SIZE
      && bs[0] == 0x42 && bs[1] == 0x4D
      && bs[10..14] == LE(4, h.offset)
      && bs[14..18] == LE(4, h.dibSize)
      && bs[18..22] == LE(4, h.width) && bs[22..26] == LE(4, h.height)
      && bs[26..28] == LE(2, h.planes) && bs[28..30] == LE(2, h.bits)
  {
    HeaderFieldAt(h, 0);
    HeaderFieldAt(h, 1);
    HeaderFieldAt(h, 5);
    HeaderFieldAt(h, 6);
    HeaderFieldAt(h, 7);
    HeaderFieldAt(h, 8);
    HeaderFieldAt(h, 9);
    HeaderFieldAt(h, 10);
    var bs := EncodeHeader(h);
    assert bs[0] == bs[0..1][0] && bs[1] == bs[1..2][0];
  }

  /** The zero fields of the written header: the two reserved words, the
      compression, both resolutions and both colour counts are written as
      zero bytes. */
  lemma MakeHeaderZeroBytes(width: int32, height: int32)
    ensures var bs := EncodeHeader(MakeHeader(width, height));
      && |bs| == HEADER_SIZE
      && forall t :: (6 <= t < 10 || 30 <= t < 34 || 38 <= t < 54) ==> bs[t] == 0
  {
    var h := MakeHeader(width, height);
    assert h.reserved1 == 0 && h.reserved2 == 0 && h.compression == 0
      && h.xRes == 0 && h.yRes == 0 && h.nColors == 0 && h.importantColors == 0;
    ZeroFieldBytes(h);
  }

  lemma ZeroFieldBytes(h: BmpHeader)
    requires h.reserved1 == 0 && h.reserved2 == 0 && h.compression == 0
    requires h.xRes == 0 && h.yRes == 0 && h.nColors == 0 && h.importantColors == 0
    ensures var bs := EncodeHeader(h);
      && |bs| == HEADER_SIZE
      && forall t :: (6 <= t < 10 || 30 <= t < 34 || 38 <= t < 54) ==> bs[t] == 0
  {
    HeaderLayout(h);
    forall t | 6 <= t < 10 || 30 <= t < 34 || 38 <= t < 54
      ensures EncodeHeader(h)[t] == 0
    {
      var k := if t < 8 then 3 else if t < 10 then 4 else if t < 34 then 11
        else if t < 42 then 13 else if t < 46 then 14 else if t < 50 then 15 else 16;
      ZeroFieldAt(h, k, t);
    }
  }

  /** A byte inside a zero field of an encoded header is zero. */
  lemma ZeroFieldAt(h: BmpHeader, k: nat, t: int)
    requires k < 17 && FieldValue(h, k) == 0 && HEADER_OFFSETS[k] <= t < HEADER_OFFSETS[k + 1]
    ensures |EncodeHeader(h)| == HEADER_SIZE && EncodeHeader(h)[t] == 0
  {
    HeaderFieldAt(h, k);
    LEZero(HEADER_SIZES[k]);
    var lo := HEADER_OFFSETS[k];
    assert EncodeHeader(h)[t] == EncodeHeader(h)[lo..HEADER_OFFSETS[k + 1]][t - lo];
  }

  /** Object k of an encoded header, on its own. */
  lemma HeaderFieldAt(h: BmpHeader, k: nat)
    requires k < 17
    ensures |EncodeHeader(h)| == HEADER_SIZE
    ensures EncodeHeader(h)[HEADER_OFFSETS[k]..HEADER_OFFSETS[k + 1]] == LE(HEADER_SIZES[k], FieldValue(h, k))
  {
    HeaderLayout(h);
  }

  /** The sizes in the written header: the image size counts 3 bytes per
      pixel of unpadded rows; the file size is the header plus
      `adjusted_width * height * 3` bytes, so it covers the image size, and
      it equals header plus image size exactly when the width is a multiple
      of 4 (or the image is empty). */
  lemma MakeHeaderSizes(width: int32, height: int32)
    requires 0 <= width && 0 <= height
    requires HEADER_SIZE + (width + 3) * height * 3 < TWO_TO_32
    ensures var h := MakeHeader(width, height);
      && h.imageSize == width * height * 3
      && h.fileSize == HEADER_SIZE + AdjustedWidth(width) * height * 3
      && h.fileSize - HEADER_SIZE >= h.imageSize
      && (width % 4 == 0 || height == 0 <==> h.fileSize - HEADER_SIZE == h.imageSize)
  {
    AdjustedWidthRoundsUp(width, 0);
    PaddedImageBytes(width, AdjustedWidth(width), height);
  }

  /** Rows padded to a multiple-of-4 pixel count `padded` hold at least as
      many bytes as unpadded ones, and the same number exactly when no padding
      was needed or there are no rows. */
  lemma PaddedImageBytes(width: nat, padded: nat, height: nat)
    requires padded % 4 == 0 && width <= padded < width + 4
    ensures 0 <= width * height * 3 <= padded * height * 3 <= (width + 3) * height * 3
    ensures padded * height * 3 == width * height * 3 <==> width % 4 == 0 || height == 0
  {
    var rowBytes := height * 3;
    MulAssoc(padded, height, 3);
    MulAssoc(width, height, 3);
    MulAssoc(width + 3, height, 3);
    MulMono(padded, width + 3, rowBytes);
    MulMono(width, padded, rowBytes);
    if width % 4 == 0 {
      assert padded == width;
    } else if height != 0 {
      assert padded >= width + 1;
      MulMono(width + 1, padded, rowBytes);
      assert (width + 1) * rowBytes == width * rowBytes + rowBytes;
    }
  }

  /** `offset` (54) is exactly the number of bytes the header occupies: the
      pixel data starts right after it. */
  lemma PixelDataFollowsHeader(width: int32, height: int32)
    ensures MakeHeader(width, height).offset == |EncodeHeader(MakeHeader(width, height))|
  {
    HeaderLayout(MakeHeader(width, height));
  }
}
