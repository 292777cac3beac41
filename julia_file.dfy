/**
 What `main` of the Julia renderer leaves in the output file: rank 0 writes
 the BMP header, then every rank in turn (rank r waits for the token of rank
 r - 1 before it opens the file for appending) appends the rows it computed.
 */
module JuliaFile {
  import opened CInts
  import opened Julia
  import opened Wrappers
  import Bmp

  /** The bytes rank `myrank` appends: its rows of the `2*height`-pixel-wide
      image, written pixel by pixel as `main` writes them. */
  function RankBytes(myrank: nat, height: nat, numProcs: nat, shade: (int, int) -> Rgb): seq<byte>
    requires myrank < numProcs
  {
    var rows := RowRange(myrank, height, numProcs);
    RowRangeInImage(myrank, height, numProcs);
    var width := 2 * height;
    RankPixelCount(Count(rows), width);
    PixelsAsWritten(RankPixels(rows.start, Count(rows), width, height, shade), Count(rows) * width, PadAsWritten(width))
  }

  lemma RankPixelCount(count: nat, width: nat)
    ensures 3 * (count * width) == count * width * 3
  {
  }

  /** The appends of ranks 0 to k-1, in rank order. */
  function RanksAsWritten(height: nat, numProcs: nat, k: nat, shade: (int, int) -> Rgb): seq<byte>
    requires k <= numProcs
  {
    if k == 0 then [] else RanksAsWritten(height, numProcs, k - 1, shade) + RankBytes(k - 1, height, numProcs, shade)
  }

  /** The whole file: the header `write_bmp_header` writes for the image,
      then the appends of all ranks. */
  function JuliaFile(height: nat, numProcs: nat, shade: (int, int) -> Rgb): seq<byte>
    requires numProcs > 0 && 2 * height < TWO_TO_31
  {
    Bmp.EncodeHeader(Bmp.MakeHeader(2 * height, height)) + RanksAsWritten(height, numProcs, numProcs, shade)
  }

  /** One rank of `main`: its rows, its buffer and the bytes it appends to
      the file. Because the rows lie inside the image, `compute_julia_pixel`
      never refuses a pixel, so every byte of the buffer is a colour byte of
      its pixel. */
  method RenderRank(myrank: nat, height: nat, numProcs: nat, shade: (int, int) -> Rgb)
    returns (rows: Rows, pixels: array<byte>, written: seq<byte>)
    requires myrank < numProcs
    ensures rows == RowRange(myrank, height, numProcs) && Count(rows) >= 0
    ensures pixels[..] == RankPixels(rows.start, Count(rows), 2 * height, height, shade)
    ensures forall y: nat, x, k :: y < Count(rows) && 0 <= x < 2 * height && 0 <= k < 3 ==>
      0 <= PixelIndex(y, x, k, 2 * height) < pixels.Length &&
      pixels[PixelIndex(y, x, k, 2 * height)] == Channel(Painted(shade(x, rows.start + y)), k)
    ensures written == RankBytes(myrank, height, numProcs, shade)
  {
    rows := RowRange(myrank, height, numProcs);
    RowRangeInImage(myrank, height, numProcs);
    var width := height * 2;
    pixels := ComputeRows(rows.start, rows.stop, width, height, shade);
    forall y: nat, x, k | y < Count(rows) && 0 <= x < width && 0 <= k < 3
      ensures 0 <= PixelIndex(y, x, k, width) < pixels.Length
      ensures pixels[PixelIndex(y, x, k, width)] == Channel(Painted(shade(x, rows.start + y)), k)
    {
      RankPixelsAt(rows.start, Count(rows), width, height, shade, y, x, k);
    }
    written := WriteRows(pixels, Count(rows), width);
  }

  /** Bytes a row of `width` pixels takes in the file as `main` writes it. */
  function RowBytes(width: nat): nat
  {
    width * (3 + PadAsWritten(width))
  }

  lemma RankBytesLength(myrank: nat, height: nat, numProcs: nat, shade: (int, int) -> Rgb)
    requires myrank < numProcs
    ensures Count(RowRange(myrank, height, numProcs)) >= 0
    ensures |RankBytes(myrank, height, numProcs, shade)| == Count(RowRange(myrank, height, numProcs)) * RowBytes(2 * height)
  {
    var rows := RowRange(myrank, height, numProcs);
    RowRangeInImage(myrank, height, numProcs);
    var width := 2 * height;
    RankPixelCount(Count(rows), width);
    PixelsAsWrittenLength(RankPixels(rows.start, Count(rows), width, height, shade), Count(rows) * width, PadAsWritten(width));
    MulAssoc(Count(rows), width, 3 + PadAsWritten(width));
  }

  /** Each row a rank computes takes `RowBytes(2 * height)` bytes. */
  lemma {:induction false} RanksAsWrittenLength(height: nat, numProcs: nat, k: nat, shade: (int, int) -> Rgb)
    requires 0 < numProcs && k <= numProcs
    ensures |RanksAsWritten(height, numProcs, k, shade)| == AssignedRows(height, numProcs, k) * RowBytes(2 * height)
  {
    if k > 0 {
      RanksAsWrittenLength(height, numProcs, k - 1, shade);
      RankBytesLength(k - 1, height, numProcs, shade);
      MulAddRight(AssignedRows(height, numProcs, k - 1), Count(RowRange(k - 1, height, numProcs)), RowBytes(2 * height));
    }
  }

  /** The file holds the 54-byte header and then `height + height % num_procs`
      rows (rows shared by two ranks are written twice), each pixel taking
      `3 + (width * 3) % 4` bytes. */
  lemma FileLength(height: nat, numProcs: nat, shade: (int, int) -> Rgb)
    requires numProcs > 0 && 2 * height < TWO_TO_31
    ensures |JuliaFile(height, numProcs, shade)| ==
      Bmp.HEADER_SIZE + (height + height % numProcs) * (2 * height) * (3 + PadAsWritten(2 * height))
  {
    Bmp.HeaderLayout(Bmp.MakeHeader(2 * height, height));
    RanksAsWrittenLength(height, numProcs, numProcs, shade);
    AssignedRowsTotal(height, numProcs, numProcs);
    MulAssoc(height + height % numProcs, 2 * height, 3 + PadAsWritten(2 * height));
  }

  /** The file starts with the header of a `2*height` x `height` 24-bit
      image, which reads back as written, and the pixel data begins right
      after it. */
  lemma FileHeader(height: nat, numProcs: nat, shade: (int, int) -> Rgb)
    requires numProcs > 0 && 2 * height < TWO_TO_31
    ensures |JuliaFile(height, numProcs, shade)| >= Bmp.HEADER_SIZE
    ensures var h := Bmp.MakeHeader(2 * height, height);
      && Bmp.DecodeHeader(JuliaFile(height, numProcs, shade)[..Bmp.HEADER_SIZE]) == Some(h)
      && h.width == 2 * height && h.height == height && h.bits == 24 && h.offset == Bmp.HEADER_SIZE
  {
    var h := Bmp.MakeHeader(2 * height, height);
    Bmp.HeaderLayout(h);
    Bmp.DecodeEncode(h);
    assert JuliaFile(height, numProcs, shade)[..Bmp.HEADER_SIZE] == Bmp.EncodeHeader(h);
  }

  /** For an even height divisible by the number of ranks, no pixel is
      padded and no row is written twice, and the file is exactly as long as
      the header's file size says. */
  lemma FileSizeMatchesHeader(height: nat, numProcs: nat, shade: (int, int) -> Rgb)
    requires numProcs > 0 && height % 2 == 0 && height % numProcs == 0
    requires Bmp.HEADER_SIZE + (2 * height + 3) * height * 3 < TWO_TO_32
    ensures 2 * height < TWO_TO_31
    ensures Bmp.MakeHeader(2 * height, height).fileSize == |JuliaFile(height, numProcs, shade)|
  {
    var width := 2 * height;
    HeaderSizeFits(height);
    EvenHeightUnpadded(height);
    assert Bmp.MakeHeader(width, height).fileSize == Bmp.HEADER_SIZE + width * height * 3 by {
      Bmp.MakeHeaderSizes(width, height);
    }
    assert |JuliaFile(height, numProcs, shade)| == Bmp.HEADER_SIZE + height * width * 3 by {
      FileLength(height, numProcs, shade);
    }
    MulCommute(height, width);
  }

  lemma HeaderSizeFits(height: nat)
    requires Bmp.HEADER_SIZE + (2 * height + 3) * height * 3 < TWO_TO_32
    ensures 2 * height < TWO_TO_31
  {
    if height > 0 {
      MulMono(1, height, 2 * height + 3);
      MulMono(1, (2 * height + 3) * height, 3);
    }
  }

  /** An even height makes the width a multiple of 4: `main` pads no pixel
      and `adjusted_width` is the width itself. */
  lemma EvenHeightUnpadded(height: nat)
    requires height % 2 == 0 && 2 * height < TWO_TO_31
    ensures PadAsWritten(2 * height) == 0
    ensures Bmp.AdjustedWidth(2 * height) == 2 * height
  {
    var k := height / 2;
    DivModUnique(2 * height * 3, 3 * k, 0, 4);
    DivModUnique(2 * height, k, 0, 4);
    Bmp.AdjustedWidthRoundsUp(2 * height, 2 * height);
  }

  // ---------------------------------------------------------------------
  // The header's file size
  // ---------------------------------------------------------------------

  /** For an odd height `adjusted_width` rounds the `2*height` pixels of a row
      up to a multiple of 4 pixels, not the row's bytes up to a multiple of 4
      bytes, so `filesize` counts 4 bytes per row more than rows padded to
      `Stride` bytes take. */
  lemma HeaderOverstatesFileSize(height: nat)
    requires height % 2 == 1 && Bmp.HEADER_SIZE + (2 * height + 3) * height * 3 < TWO_TO_32
    ensures 2 * height < TWO_TO_31
    ensures Stride(2 * height) == 6 * height + 2
    ensures Bmp.MakeHeader(2 * height, height).fileSize == Bmp.HEADER_SIZE + Stride(2 * height) * height + 4 * height
  {
    var width := 2 * height;
    assert width < TWO_TO_31 by {
      HeaderSizeFits(height);
    }
    assert Bmp.AdjustedWidth(width) == 2 * height + 2 && Stride(width) == 6 * height + 2 by {
      OddHeightPadding(height);
    }
    assert Bmp.MakeHeader(width, height).fileSize == Bmp.HEADER_SIZE + Bmp.AdjustedWidth(width) * height * 3 by {
      Bmp.MakeHeaderSizes(width, height);
    }
    OddRowBytes(height, Bmp.AdjustedWidth(width), Stride(width));
  }

  /** An odd height gives a width of 2 modulo 4: `adjusted_width` adds two
      pixels, and a padded row needs two bytes. */
  lemma OddHeightPadding(height: nat)
    requires height % 2 == 1 && 2 * height < TWO_TO_31
    ensures Bmp.AdjustedWidth(2 * height) == 2 * height + 2
    ensures Stride(2 * height) == 6 * height + 2
  {
    var k := height / 2;
    assert height == 2 * k + 1 by {
      DivModParts(height, 2);
    }
    OddWidthAdjusted(height, k);
    OddWidthStride(height, k);
  }

  lemma OddWidthAdjusted(height: nat, k: nat)
    requires height == 2 * k + 1 && 2 * height < TWO_TO_31
    ensures Bmp.AdjustedWidth(2 * height) == 2 * height + 2
  {
    DivModUnique(2 * height, k, 2, 4);
  }

  lemma OddWidthStride(height: nat, k: nat)
    requires height == 2 * k + 1
    ensures Stride(2 * height) == 6 * height + 2
  {
    DivModUnique(6 * height, 3 * k + 1, 2, 4);
  }

  lemma OddRowBytes(h: int, adjusted: int, stride: int)
    requires adjusted == 2 * h + 2 && stride == 6 * h + 2
    ensures adjusted * h * 3 == stride * h + 4 * h
  {
  }

  // ---------------------------------------------------------------------
  // The evidently intended file
  // ---------------------------------------------------------------------

  /** The header with the file size of rows padded to `Stride(width)` bytes. */
  function CorrectedHeader(width: int32, height: int32): Bmp.BmpHeader
    requires width >= 0
  {
    Bmp.MakeHeader(width, height).(fileSize := U32(Bmp.HEADER_SIZE + Stride(width) * height))
  }

  /** What rank r appends when the row ranges are balanced and every row,
      not every pixel, is followed by its padding. */
  function BalancedRankBytes(r: nat, height: nat, numProcs: nat, shade: (int, int) -> Rgb): seq<byte>
    requires r < numProcs
  {
    var rows := BalancedRowRange(r, height, numProcs);
    ShareMono(r, r + 1, height, numProcs);
    PaddedRows(RankPixels(rows.start, Count(rows), 2 * height, height, shade), Count(rows), 2 * height)
  }

  /** The corrected appends of ranks 0 to k-1, in rank order. */
  function BalancedRanks(height: nat, numProcs: nat, k: nat, shade: (int, int) -> Rgb): seq<byte>
    requires k <= numProcs
  {
    if k == 0 then [] else BalancedRanks(height, numProcs, k - 1, shade) + BalancedRankBytes(k - 1, height, numProcs, shade)
  }

  /** The file the program evidently means to write. */
  function CorrectedJuliaFile(height: nat, numProcs: nat, shade: (int, int) -> Rgb): seq<byte>
    requires numProcs > 0 && 2 * height < TWO_TO_31
  {
    Bmp.EncodeHeader(CorrectedHeader(2 * height, height)) + BalancedRanks(height, numProcs, numProcs, shade)
  }

  /** Ranks 0 to k-1 append the first `Share(k)` padded rows' worth of bytes. */
  lemma {:induction false} BalancedRanksLength(height: nat, numProcs: nat, k: nat, shade: (int, int) -> Rgb)
    requires 0 < numProcs && k <= numProcs
    ensures |BalancedRanks(height, numProcs, k, shade)| == Share(k, height, numProcs) * Stride(2 * height)
  {
    if k > 0 {
      BalancedRanksLength(height, numProcs, k - 1, shade);
      ShareMono(k - 1, k, height, numProcs);
      var a := Share(k - 1, height, numProcs);
      MulAddRight(a, Share(k, height, numProcs) - a, Stride(2 * height));
    }
  }

  /** Where the rank owning row y put it: rows below `Share(kr - 1)` are in the
      earlier ranks' bytes, the others in rank kr - 1's, at row `y - Share(kr - 1)`. */
  lemma RowOfLastRank(height: nat, numProcs: nat, kr: nat, y: nat)
    requires 0 < kr <= numProcs && Share(kr - 1, height, numProcs) <= y < Share(kr, height, numProcs)
    ensures var rows := BalancedRowRange(kr - 1, height, numProcs);
      && rows.start == Share(kr - 1, height, numProcs)
      && 0 <= y - rows.start < Count(rows)
      && y < height
      && y * Stride(2 * height) == rows.start * Stride(2 * height) + (y - rows.start) * Stride(2 * height)
  {
    var a := Share(kr - 1, height, numProcs);
    MulAddRight(a, y - a, Stride(2 * height));
    ShareMono(kr, numProcs, height, numProcs);
    ShareAll(height, numProcs);
  }

  /** The appends of the first kr ranks start with those of the first kr - 1. */
  lemma BalancedRanksPrefix(height: nat, numProcs: nat, kr: nat, shade: (int, int) -> Rgb, i: int)
    requires 0 < kr <= numProcs && 0 <= i < |BalancedRanks(height, numProcs, kr - 1, shade)|
    ensures i < |BalancedRanks(height, numProcs, kr, shade)|
    ensures BalancedRanks(height, numProcs, kr, shade)[i] == BalancedRanks(height, numProcs, kr - 1, shade)[i]
  {
  }

  /** Colour byte k of pixel (x, y), for a row y of rank kr - 1, sits at
      `y * Stride + 3x + k` of the appends of the first kr ranks. */
  lemma LastRankPixel(height: nat, numProcs: nat, kr: nat, shade: (int, int) -> Rgb, y: nat, x: nat, k: nat)
    requires 0 < kr <= numProcs && Share(kr - 1, height, numProcs) <= y < Share(kr, height, numProcs)
    requires x < 2 * height && k < 3
    ensures 0 <= y * Stride(2 * height) + x * 3 + k < |BalancedRanks(height, numProcs, kr, shade)|
    ensures BalancedRanks(height, numProcs, kr, shade)[y * Stride(2 * height) + x * 3 + k] == Channel(Painted(shade(x, y)), k)
  {
    var stride := Stride(2 * height);
    var rows := BalancedRowRange(kr - 1, height, numProcs);
    var before := BalancedRanks(height, numProcs, kr - 1, shade);
    var mine := BalancedRankBytes(kr - 1, height, numProcs, shade);
    assert BalancedRanks(height, numProcs, kr, shade) == before + mine;
    assert |before| == rows.start * stride by {
      BalancedRanksLength(height, numProcs, kr - 1, shade);
    }
    var ly := y - rows.start;
    var li := ly * stride + x * 3 + k;
    assert 0 <= li < |mine| && mine[li] == Channel(Painted(shade(x, y)), k)
        && y * stride + x * 3 + k == |before| + li by {
      RowOfLastRank(height, numProcs, kr, y);
      var count: nat := Count(rows);
      var pixels := RankPixels(rows.start, count, 2 * height, height, shade);
      assert mine == PaddedRows(pixels, count, 2 * height);
      PaddedRowsLayout(pixels, count, 2 * height, ly, x, k);
      RankPixelsAt(rows.start, count, 2 * height, height, shade, ly, x, k);
    }
  }

  /** The padding bytes of a row y of rank kr - 1 are zero in the appends of
      the first kr ranks. */
  lemma LastRankPadding(height: nat, numProcs: nat, kr: nat, shade: (int, int) -> Rgb, y: nat, j: nat)
    requires 0 < kr <= numProcs && Share(kr - 1, height, numProcs) <= y < Share(kr, height, numProcs)
    requires 2 * height * 3 <= j < Stride(2 * height)
    ensures 0 <= y * Stride(2 * height) + j < |BalancedRanks(height, numProcs, kr, shade)|
    ensures BalancedRanks(height, numProcs, kr, shade)[y * Stride(2 * height) + j] == 0
  {
    var stride := Stride(2 * height);
    var rows := BalancedRowRange(kr - 1, height, numProcs);
    var before := BalancedRanks(height, numProcs, kr - 1, shade);
    var mine := BalancedRankBytes(kr - 1, height, numProcs, shade);
    assert BalancedRanks(height, numProcs, kr, shade) == before + mine;
    assert |before| == rows.start * stride by {
      BalancedRanksLength(height, numProcs, kr - 1, shade);
    }
    var ly := y - rows.start;
    var li := ly * stride + j;
    assert 0 <= li < |mine| && mine[li] == 0 && y * stride + j == |before| + li by {
      RowOfLastRank(height, numProcs, kr, y);
      var count: nat := Count(rows);
      var pixels := RankPixels(rows.start, count, 2 * height, height, shade);
      assert mine == PaddedRows(pixels, count, 2 * height);
      PaddedRowsPadding(pixels, count, 2 * height, ly, j);
    }
  }

  /** Colour byte k of pixel (x, y) sits at `y * Stride + 3x + k` of the
      corrected appends, for every row y the first kr ranks compute. */
  lemma {:induction false} BalancedRanksPixel(height: nat, numProcs: nat, kr: nat, shade: (int, int) -> Rgb, y: nat, x: nat, k: nat)
    requires 0 < kr <= numProcs && y < Share(kr, height, numProcs) && x < 2 * height && k < 3
    ensures 0 <= y * Stride(2 * height) + x * 3 + k < |BalancedRanks(height, numProcs, kr, shade)|
    ensures BalancedRanks(height, numProcs, kr, shade)[y * Stride(2 * height) + x * 3 + k] == Channel(Painted(shade(x, y)), k)
  {
    if y < Share(kr - 1, height, numProcs) {
      BalancedRanksPixel(height, numProcs, kr - 1, shade, y, x, k);
      BalancedRanksPrefix(height, numProcs, kr, shade, y * Stride(2 * height) + x * 3 + k);
    } else {
      LastRankPixel(height, numProcs, kr, shade, y, x, k);
    }
  }

  /** The bytes after a row's pixels in the corrected appends are zero. */
  lemma {:induction false} BalancedRanksPadding(height: nat, numProcs: nat, kr: nat, shade: (int, int) -> Rgb, y: nat, j: nat)
    requires 0 < kr <= numProcs && y < Share(kr, height, numProcs) && 2 * height * 3 <= j < Stride(2 * height)
    ensures 0 <= y * Stride(2 * height) + j < |BalancedRanks(height, numProcs, kr, shade)|
    ensures BalancedRanks(height, numProcs, kr, shade)[y * Stride(2 * height) + j] == 0
  {
    if y < Share(kr - 1, height, numProcs) {
      BalancedRanksPadding(height, numProcs, kr - 1, shade, y, j);
      BalancedRanksPrefix(height, numProcs, kr, shade, y * Stride(2 * height) + j);
    } else {
      LastRankPadding(height, numProcs, kr, shade, y, j);
    }
  }

  /** The corrected file is the header followed by `height` rows of
      `Stride(2*height)` bytes, a multiple of 4, as the header's file size
      says; it reads back as that header. */
  lemma CorrectedFileSize(height: nat, numProcs: nat, shade: (int, int) -> Rgb)
    requires numProcs > 0 && 2 * height < TWO_TO_31
    requires Bmp.HEADER_SIZE + Stride(2 * height) * height < TWO_TO_32
    ensures Stride(2 * height) % 4 == 0
    ensures Bmp.HEADER_SIZE <= |CorrectedJuliaFile(height, numProcs, shade)|
    ensures |CorrectedJuliaFile(height, numProcs, shade)| == Bmp.HEADER_SIZE + height * Stride(2 * height)
    ensures CorrectedHeader(2 * height, height).fileSize == |CorrectedJuliaFile(height, numProcs, shade)|
    ensures Bmp.DecodeHeader(CorrectedJuliaFile(height, numProcs, shade)[..Bmp.HEADER_SIZE]) == Some(CorrectedHeader(2 * height, height))
  {
    var h := CorrectedHeader(2 * height, height);
    var stride := Stride(2 * height);
    var file := CorrectedJuliaFile(height, numProcs, shade);
    var body := BalancedRanks(height, numProcs, numProcs, shade);
    StrideAligned(2 * height);
    assert |Bmp.EncodeHeader(h)| == Bmp.HEADER_SIZE by {
      Bmp.HeaderLayout(h);
    }
    assert |body| == height * stride by {
      BalancedRanksLength(height, numProcs, numProcs, shade);
      ShareAll(height, numProcs);
    }
    assert h.fileSize == Bmp.HEADER_SIZE + height * stride by {
      MulCommute(stride, height);
    }
    assert file == Bmp.EncodeHeader(h) + body;
    assert file[..Bmp.HEADER_SIZE] == Bmp.EncodeHeader(h);
    Bmp.DecodeEncode(h);
  }

  /** In the corrected file colour byte k of pixel (x, y) of the image is at
      byte `54 + y * Stride + 3x + k`: every row of the image appears exactly
      once, in order. */
  lemma CorrectedFileLayout(height: nat, numProcs: nat, shade: (int, int) -> Rgb, y: nat, x: nat, k: nat)
    requires numProcs > 0 && 2 * height < TWO_TO_31 && y < height
    requires x < 2 * height && k < 3
    ensures var file := CorrectedJuliaFile(height, numProcs, shade);
      var at := Bmp.HEADER_SIZE + y * Stride(2 * height) + x * 3 + k;
      0 <= at < |file| && file[at] == Channel(Painted(shade(x, y)), k)
  {
    var h := CorrectedHeader(2 * height, height);
    var body := BalancedRanks(height, numProcs, numProcs, shade);
    var at := y * Stride(2 * height) + x * 3 + k;
    assert |Bmp.EncodeHeader(h)| == Bmp.HEADER_SIZE by {
      Bmp.HeaderLayout(h);
    }
    assert 0 <= at < |body| && body[at] == Channel(Painted(shade(x, y)), k) by {
      ShareAll(height, numProcs);
      BalancedRanksPixel(height, numProcs, numProcs, shade, y, x, k);
    }
    assert CorrectedJuliaFile(height, numProcs, shade) == Bmp.EncodeHeader(h) + body;
  }

  /** In the corrected file the bytes between the end of row y's pixels and
      the start of row y + 1 are zero. */
  lemma CorrectedFilePadding(height: nat, numProcs: nat, shade: (int, int) -> Rgb, y: nat, j: nat)
    requires numProcs > 0 && 2 * height < TWO_TO_31 && y < height
    requires 2 * height * 3 <= j < Stride(2 * height)
    ensures var file := CorrectedJuliaFile(height, numProcs, shade);
      var at := Bmp.HEADER_SIZE + y * Stride(2 * height) + j;
      0 <= at < |file| && file[at] == 0
  {
    var h := CorrectedHeader(2 * height, height);
    var body := BalancedRanks(height, numProcs, numProcs, shade);
    var at := y * Stride(2 * height) + j;
    assert |Bmp.EncodeHeader(h)| == Bmp.HEADER_SIZE by {
      Bmp.HeaderLayout(h);
    }
    assert 0 <= at < |body| && body[at] == 0 by {
      ShareAll(height, numProcs);
      BalancedRanksPadding(height, numProcs, numProcs, shade, y, j);
    }
    assert CorrectedJuliaFile(height, numProcs, shade) == Bmp.EncodeHeader(h) + body;
  }
}
