/**
 The integer logic of the one-dimensional parallel Julia renderer: which
 pixel rows each rank computes, where a pixel's three colour bytes sit in the
 rank's buffer, the coordinate guard of `compute_julia_pixel`, and the nested
 loops that fill the buffer.
 */
module Julia {
  import opened CInts

  /** The three colour bytes of a pixel. */
  datatype Rgb = Rgb(r: byte, g: byte, b: byte)

  /** The rows `start` to `stop`, both included, that one rank computes. */
  datatype Rows = Rows(start: int, stop: int)

  /** `stop - start + 1`: the number of rows, and the first factor of the
      buffer size handed to `calloc`. */
  function Count(rows: Rows): int
  {
    rows.stop - rows.start + 1
  }

  predicate InRows(y: int, rows: Rows)
  {
    rows.start <= y <= rows.stop
  }

  // ---------------------------------------------------------------------
  // Row decomposition
  // ---------------------------------------------------------------------

  /** `start` and `stop` as `main` computes them, with C's `/` and `%`: every
      rank gets rows from `myrank*height/num_procs` on, and the first
      `height % num_procs` ranks get one more row at the end. */
  function RowRange(myrank: int, height: int, numProcs: int): Rows
    requires numProcs > 0
  {
    var remainder := CRem(height, numProcs);
    Rows(CDiv(myrank * height, numProcs),
         CDiv((myrank + 1) * height, numProcs) + (if myrank < remainder then 1 else 0) - 1)
  }

  /** `k * height / num_procs` for non-negative operands: where the k-th
      share of the rows begins when they are split evenly. */
  function Share(k: nat, height: nat, numProcs: nat): nat
    requires numProcs > 0
  {
    k * height / numProcs
  }

  lemma ShareMono(a: nat, b: nat, height: nat, numProcs: nat)
    requires numProcs > 0 && a <= b
    ensures Share(a, height, numProcs) <= Share(b, height, numProcs)
  {
    MulMono(a, b, height);
    DivMono(a * height, b * height, numProcs);
  }

  lemma ShareAll(height: nat, numProcs: nat)
    requires numProcs > 0
    ensures Share(numProcs, height, numProcs) == height
  {
    DivModUnique(numProcs * height, height, 0, numProcs);
  }

  lemma ShareBelow(k: nat, height: nat, numProcs: nat)
    requires k < numProcs && height > 0
    ensures Share(k, height, numProcs) < height
  {
    var last := numProcs * height - 1;
    assert last == (height - 1) * numProcs + (numProcs - 1);
    DivModUnique(last, height - 1, numProcs - 1, numProcs);
    MulMono(k + 1, numProcs, height);
    DivMono(k * height, last, numProcs);
  }

  /** The same ranges with non-negative operands, in Euclidean terms. */
  lemma RowRangeNonNegative(myrank: nat, height: nat, numProcs: nat)
    requires numProcs > 0
    ensures RowRange(myrank, height, numProcs) ==
      Rows(Share(myrank, height, numProcs),
           Share(myrank + 1, height, numProcs) + (if myrank < height % numProcs then 1 else 0) - 1)
  {
  }

  /** Every rank's rows lie inside the image, and no rank gets a negative
      number of rows. */
  lemma RowRangeInImage(myrank: nat, height: nat, numProcs: nat)
    requires myrank < numProcs
    ensures var rows := RowRange(myrank, height, numProcs);
      0 <= rows.start && rows.stop < height && Count(rows) >= 0
  {
    RowRangeNonNegative(myrank, height, numProcs);
    ShareMono(myrank, myrank + 1, height, numProcs);
    if myrank < height % numProcs {
      ShareBelow(myrank + 1, height, numProcs);
    } else {
      ShareMono(myrank + 1, numProcs, height, numProcs);
      ShareAll(height, numProcs);
    }
  }

  /** When `height % num_procs != 0` the ranges are not disjoint: each of the
      first `height % num_procs` ranks (except the last rank) ends on the row
      its successor starts with, so that row is computed twice whenever the
      successor has any rows at all. */
  lemma RowRangesOverlap(myrank: nat, height: nat, numProcs: nat)
    requires myrank + 1 < numProcs && myrank < height % numProcs
    ensures var here, next := RowRange(myrank, height, numProcs), RowRange(myrank + 1, height, numProcs);
      && here.stop == next.start && InRows(here.stop, here)
      && (Count(next) > 0 ==> InRows(here.stop, next))
  {
    RowRangeNonNegative(myrank, height, numProcs);
    RowRangeNonNegative(myrank + 1, height, numProcs);
    ShareMono(myrank, myrank + 1, height, numProcs);
  }

  /** Height 10 on 3 ranks: rank 0 computes rows 0 to 3 and rank 1 rows 3 to
      5, so row 3 is computed (and written to the file) twice. */
  lemma TenRowsOnThreeRanks()
    ensures RowRange(0, 10, 3) == Rows(0, 3) && RowRange(1, 10, 3) == Rows(3, 5)
    ensures RowRange(2, 10, 3) == Rows(6, 9)
  {
  }

  /** Rows computed by ranks 0 to k-1 together, counted with repetition. */
  function AssignedRows(height: nat, numProcs: nat, k: nat): int
    requires numProcs > 0
  {
    if k == 0 then 0 else AssignedRows(height, numProcs, k - 1) + Count(RowRange(k - 1, height, numProcs))
  }

  /** Ranks 0 to k-1 compute `k*height/num_procs` rows plus one extra row for
      each of them below the remainder; over all ranks that is
      `height + height % num_procs`, so the file receives `height % num_procs`
      rows more than the header announces. */
  lemma {:induction false} AssignedRowsTotal(height: nat, numProcs: nat, k: nat)
    requires numProcs > 0 && k <= numProcs
    ensures AssignedRows(height, numProcs, k) == Share(k, height, numProcs) + Min(k, height % numProcs)
    ensures k == numProcs ==> AssignedRows(height, numProcs, k) == height + height % numProcs
  {
    if k > 0 {
      AssignedRowsTotal(height, numProcs, k - 1);
      RowRangeNonNegative(k - 1, height, numProcs);
    }
    if k == numProcs {
      ShareAll(height, numProcs);
    }
  }

  /** The evident intent: consecutive, non-overlapping ranges; rank r gets
      rows `r*height/num_procs` up to `(r+1)*height/num_procs - 1`. */
  function BalancedRowRange(myrank: nat, height: nat, numProcs: nat): Rows
    requires numProcs > 0
  {
    Rows(Share(myrank, height, numProcs), Share(myrank + 1, height, numProcs) - 1)
  }

  /** The balanced ranges are contiguous: they start at row 0, each one starts
      right after its predecessor ends, the last ends at row `height - 1`, and
      none is negative in size. */
  lemma BalancedRowsContiguous(myrank: nat, height: nat, numProcs: nat)
    requires numProcs > 0 && myrank < numProcs
    ensures BalancedRowRange(0, height, numProcs).start == 0
    ensures BalancedRowRange(numProcs - 1, height, numProcs).stop == height - 1
    ensures myrank + 1 < numProcs ==>
      BalancedRowRange(myrank + 1, height, numProcs).start == BalancedRowRange(myrank, height, numProcs).stop + 1
    ensures Count(BalancedRowRange(myrank, height, numProcs)) >= 0
  {
    ShareAll(height, numProcs);
    ShareMono(myrank, myrank + 1, height, numProcs);
  }

  /** Each row of the image belongs to at least one balanced range ... */
  lemma {:induction false} BalancedRowsCover(y: int, height: nat, numProcs: nat, k: nat)
    requires numProcs > 0 && k <= numProcs && 0 <= y < Share(k, height, numProcs)
    ensures exists r :: 0 <= r < k && InRows(y, BalancedRowRange(r, height, numProcs))
  {
    if y < Share(k - 1, height, numProcs) {
      BalancedRowsCover(y, height, numProcs, k - 1);
      var r :| 0 <= r < k - 1 && InRows(y, BalancedRowRange(r, height, numProcs));
      assert 0 <= r < k;
    } else {
      assert InRows(y, BalancedRowRange(k - 1, height, numProcs));
    }
  }

  /** ... and to at most one. */
  lemma BalancedRowsDisjoint(y: int, r1: nat, r2: nat, height: nat, numProcs: nat)
    requires numProcs > 0
    requires InRows(y, BalancedRowRange(r1, height, numProcs)) && InRows(y, BalancedRowRange(r2, height, numProcs))
    ensures r1 == r2
  {
    if r1 < r2 {
      ShareMono(r1 + 1, r2, height, numProcs);
    } else if r2 < r1 {
      ShareMono(r2 + 1, r1, height, numProcs);
    }
  }

  /** So the balanced ranges partition the rows: every row of the image is
      computed by exactly one rank. */
  lemma BalancedRowsPartition(y: int, height: nat, numProcs: nat)
    requires numProcs > 0 && 0 <= y < height
    ensures exists r :: 0 <= r < numProcs && InRows(y, BalancedRowRange(r, height, numProcs))
    ensures forall r1: nat, r2: nat ::
      InRows(y, BalancedRowRange(r1, height, numProcs)) && InRows(y, BalancedRowRange(r2, height, numProcs)) ==> r1 == r2
  {
    ShareAll(height, numProcs);
    BalancedRowsCover(y, height, numProcs, numProcs);
    forall r1: nat, r2: nat |
      InRows(y, BalancedRowRange(r1, height, numProcs)) && InRows(y, BalancedRowRange(r2, height, numProcs))
      ensures r1 == r2
    {
      BalancedRowsDisjoint(y, r1, r2, height, numProcs);
    }
  }

  /** When `num_procs` divides `height` the program's ranges are the balanced
      ones, so in that case they too partition the image's rows. */
  lemma RowRangeBalancedWhenDivisible(myrank: nat, height: nat, numProcs: nat)
    requires numProcs > 0 && height % numProcs == 0
    ensures RowRange(myrank, height, numProcs) == BalancedRowRange(myrank, height, numProcs)
  {
    RowRangeNonNegative(myrank, height, numProcs);
  }

  // ---------------------------------------------------------------------
  // Pixels
  // ---------------------------------------------------------------------

  /** What `compute_julia_pixel` does: refuse (return -1) a coordinate outside
      the image, or paint the pixel and return 0. */
  datatype PixelResult = Invalid | Painted(rgb: Rgb)

  /** `shade(x, y)` stands for the floating-point Julia iteration and colour
      map of a pixel inside the image. */
  function ComputeJuliaPixel(x: int, y: int, width: int, height: int, shade: (int, int) -> Rgb): PixelResult
  {
    if x < 0 || x >= width || y < 0 || y >= height then Invalid else Painted(shade(x, y))
  }

  /** The status code `compute_julia_pixel` returns. */
  function Status(r: PixelResult): int
  {
    if r.Invalid? then -1 else 0
  }

  /** The guard never refuses a pixel the fill loops ask for: every column
      of every row in a rank's range is inside the image, so it is painted
      with its own colour and the status is 0. */
  lemma PixelGuard(myrank: nat, height: nat, numProcs: nat, shade: (int, int) -> Rgb, y: int, x: int)
    requires myrank < numProcs && InRows(y, RowRange(myrank, height, numProcs)) && 0 <= x < 2 * height
    ensures ComputeJuliaPixel(x, y, 2 * height, height, shade) == Painted(shade(x, y))
    ensures Status(ComputeJuliaPixel(x, y, 2 * height, height, shade)) == 0
  {
    RowRangeInImage(myrank, height, numProcs);
  }

  /** Position of colour byte k of pixel (x, y) of a rank's buffer: rows of
      `3 * width` bytes, three bytes per pixel. */
  function PixelIndex(y: int, x: int, k: int, width: int): int
  {
    y * 3 * width + x * 3 + k
  }

  datatype Position = Position(y: int, x: int, k: int)

  /** The pixel and colour byte at position i of the buffer. */
  function PixelAt(i: int, width: int): Position
    requires width > 0
  {
    Position(i / (3 * width), i % (3 * width) / 3, i % (3 * width) % 3)
  }

  /** The index splits into a whole number of `3 * width`-byte rows and an
      offset inside the row. */
  lemma PixelIndexSplit(y: int, x: int, k: int, width: int)
    ensures PixelIndex(y, x, k, width) == y * (3 * width) + (x * 3 + k)
  {
  }

  /** Every colour byte of the rank's `count` rows lies inside the
      `count * width * 3`-byte buffer. */
  lemma PixelIndexInBuffer(count: int, width: int, y: int, x: int, k: int)
    requires 0 <= y < count && 0 <= x < width && 0 <= k < 3
    ensures 0 <= PixelIndex(y, x, k, width) < count * width * 3
  {
    var row := 3 * width;
    PixelIndexSplit(y, x, k, width);
    MulMono(0, y, row);
    MulMono(y + 1, count, row);
    assert count * width * 3 == count * row;
  }

  /** Locating a pixel's byte and reading back its pixel are inverse: the
      layout gives every colour byte of every pixel its own position. */
  lemma PixelAtIndex(y: nat, x: int, k: int, width: int)
    requires 0 <= x < width && 0 <= k < 3
    ensures PixelAt(PixelIndex(y, x, k, width), width) == Position(y, x, k)
  {
    var row := 3 * width;
    var inRow := x * 3 + k;
    PixelIndexSplit(y, x, k, width);
    DivModUnique(y * row + inRow, y, inRow, row);
    DivModUnique(inRow, x, k, 3);
  }

  lemma IndexOfPixelAt(i: nat, width: int)
    requires width > 0
    ensures var p := PixelAt(i, width);
      && p.y >= 0 && 0 <= p.x < width && 0 <= p.k < 3
      && PixelIndex(p.y, p.x, p.k, width) == i
  {
    var row := 3 * width;
    var y, rem := i / row, i % row;
    var x, k := rem / 3, rem % 3;
    assert PixelAt(i, width) == Position(y, x, k);
    assert y >= 0 by {
      DivMono(0, i, row);
    }
    assert 0 <= x < width by {
      DivBelow(rem, width, 3);
    }
    assert PixelIndex(y, x, k, width) == i by {
      DivModParts(i, row);
      DivModParts(rem, 3);
      Recompose(i, y, rem, x, k, width);
    }
  }

  lemma Recompose(i: int, y: int, rem: int, x: int, k: int, width: int)
    requires i == y * (3 * width) + rem && rem == x * 3 + k
    ensures PixelIndex(y, x, k, width) == i
  {
    PixelIndexSplit(y, x, k, width);
  }

  /** Distinct pixel bytes never share a position. */
  lemma PixelIndexInjective(y1: nat, x1: int, k1: int, y2: nat, x2: int, k2: int, width: int)
    requires 0 <= x1 < width && 0 <= k1 < 3 && 0 <= x2 < width && 0 <= k2 < 3
    requires PixelIndex(y1, x1, k1, width) == PixelIndex(y2, x2, k2, width)
    ensures y1 == y2 && x1 == x2 && k1 == k2
  {
    PixelAtIndex(y1, x1, k1, width);
    PixelAtIndex(y2, x2, k2, width);
  }

  /** Colour byte k of a pixel result; a refused pixel keeps the zeros of
      `calloc`. */
  function Channel(r: PixelResult, k: int): byte
  {
    if r.Invalid? then 0 else if k == 0 then r.rgb.r else if k == 1 then r.rgb.g else r.rgb.b
  }

  /** Byte i of the buffer of a rank whose rows start at `start`. */
  function ExpectedByte(i: int, start: int, width: int, height: int, shade: (int, int) -> Rgb): byte
  {
    if width <= 0 then 0
    else
      var p := PixelAt(i, width);
      Channel(ComputeJuliaPixel(p.x, start + p.y, width, height, shade), p.k)
  }

  /** The buffer of a rank computing `count` rows from `start`. */
  function RankPixels(start: int, count: nat, width: nat, height: int, shade: (int, int) -> Rgb): (pixels: seq<byte>)
    ensures |pixels| == count * width * 3
  {
    MulMono(0, count, width);
    seq(count * width * 3, i requires 0 <= i < count * width * 3 => ExpectedByte(i, start, width, height, shade))
  }

  /** Colour byte k of pixel (x, start + y) sits at `PixelIndex(y, x, k)` of
      the buffer. */
  lemma RankPixelsAt(start: int, count: nat, width: nat, height: int, shade: (int, int) -> Rgb, y: nat, x: int, k: int)
    requires y < count && 0 <= x < width && 0 <= k < 3
    ensures 0 <= PixelIndex(y, x, k, width) < |RankPixels(start, count, width, height, shade)|
    ensures RankPixels(start, count, width, height, shade)[PixelIndex(y, x, k, width)] ==
      Channel(ComputeJuliaPixel(x, start + y, width, height, shade), k)
  {
    PixelIndexInBuffer(count, width, y, x, k);
    ExpectedByteAt(PixelIndex(y, x, k, width), y, x, k, start, width, height, shade);
  }

  /** Byte k of pixel (x, start + y), found at position i, is the pixel's
      colour byte, or 0 when `compute_julia_pixel` refuses the pixel. */
  lemma ExpectedByteAt(i: int, y: nat, x: int, k: int, start: int, width: int, height: int, shade: (int, int) -> Rgb)
    requires 0 <= x < width && 0 <= k < 3 && i == PixelIndex(y, x, k, width)
    ensures ExpectedByte(i, start, width, height, shade) ==
      Channel(ComputeJuliaPixel(x, start + y, width, height, shade), k)
  {
    PixelAtIndex(y, x, k, width);
  }

  /** The pixel after the last one of row y is the first one of row y + 1. */
  lemma NextRow(y: int, width: int)
    ensures PixelIndex(y, width, 0, width) == PixelIndex(y + 1, 0, 0, width)
  {
    PixelIndexSplit(y, width, 0, width);
    PixelIndexSplit(y + 1, 0, 0, width);
  }

  /** Buffer state between rows: bytes before `done` hold their final
      values and the rest are still the zeros of `calloc`. */
  ghost predicate FilledUpTo(pixels: seq<byte>, done: int, start: int, width: int, height: int, shade: (int, int) -> Rgb)
  {
    && (forall i :: 0 <= i < done && i < |pixels| ==> pixels[i] == ExpectedByte(i, start, width, height, shade))
    && (forall i :: done <= i < |pixels| && 0 <= i ==> pixels[i] == 0)
  }

  /** The inner loop of `main`: row y, pixel after pixel. */
  method ComputeRow(pixels: array<byte>, y: nat, count: nat, start: int, width: nat, height: int, shade: (int, int) -> Rgb)
    requires y < count && pixels.Length == count * width * 3
    requires FilledUpTo(pixels[..], PixelIndex(y, 0, 0, width), start, width, height, shade)
    modifies pixels
    ensures FilledUpTo(pixels[..], PixelIndex(y + 1, 0, 0, width), start, width, height, shade)
  {
    var x := 0;
    while x < width
      invariant 0 <= x <= width
      invariant FilledUpTo(pixels[..], PixelIndex(y, x, 0, width), start, width, height, shade)
    {
      var base := y * 3 * width + x * 3;
      PixelIndexInBuffer(count, width, y, x, 2);
      var r := ComputeJuliaPixel(x, start + y, width, height, shade);
      match r {
        case Painted(rgb) =>
          pixels[base] := rgb.r;
          pixels[base + 1] := rgb.g;
          pixels[base + 2] := rgb.b;
        case Invalid =>
      }
      forall i | 0 <= i < base + 3
        ensures pixels[i] == ExpectedByte(i, start, width, height, shade)
      {
        if i >= base {
          ExpectedByteAt(i, y, x, i - base, start, width, height, shade);
        }
      }
      x := x + 1;
    }
    NextRow(y, width);
  }

  /** The nested loops of `main` over the `calloc`'d buffer: pixel (x, start +
      y) goes to bytes `y*3*width + x*3` onwards. */
  method ComputeRows(start: int, stop: int, width: nat, height: int, shade: (int, int) -> Rgb)
    returns (pixels: array<byte>)
    requires stop - start + 1 >= 0
    ensures pixels[..] == RankPixels(start, stop - start + 1, width, height, shade)
  {
    var count := stop - start + 1;
    MulMono(0, count, width);
    pixels := new byte[count * width * 3](_ => 0);
    var y := 0;
    while y < count
      invariant 0 <= y <= count
      invariant FilledUpTo(pixels[..], PixelIndex(y, 0, 0, width), start, width, height, shade)
    {
      ComputeRow(pixels, y, count, start, width, height, shade);
      y := y + 1;
    }
    PixelIndexSplit(count, 0, 0, width);
    assert PixelIndex(count, 0, 0, width) == pixels.Length;
  }

  // ---------------------------------------------------------------------
  // Writing the rows
  // ---------------------------------------------------------------------

  function Zeros(n: nat): (z: seq<byte>)
    ensures |z| == n && forall i :: 0 <= i < n ==> z[i] == 0
  {
    seq(n, _ => 0)
  }

  /** The number of padding bytes `main` writes after every pixel. */
  function PadAsWritten(width: nat): nat
  {
    (width * 3) % 4
  }

  /** The bytes a rank appends to the file for the first n pixels of its
      buffer, as `main` writes them: each pixel's three bytes followed by
      `pad` zero bytes. */
  function PixelsAsWritten(pixels: seq<byte>, n: nat, pad: nat): seq<byte>
    requires 3 * n <= |pixels|
  {
    if n == 0 then []
    else PixelsAsWritten(pixels, n - 1, pad) + pixels[3 * (n - 1)..3 * n] + Zeros(pad)
  }

  /** Every pixel takes `3 + pad` bytes of the file. */
  lemma {:induction false} PixelsAsWrittenLength(pixels: seq<byte>, n: nat, pad: nat)
    requires 3 * n <= |pixels|
    ensures |PixelsAsWritten(pixels, n, pad)| == n * (3 + pad)
  {
    if n > 0 {
      PixelsAsWrittenLength(pixels, n - 1, pad);
    }
  }

  /** Closed form of the bytes as written: pixel i occupies the `3 + pad`
      bytes from `i * (3 + pad)`, its three colour bytes first and then `pad`
      zero bytes. */
  lemma {:induction false} PixelsAsWrittenAt(pixels: seq<byte>, n: nat, pad: nat, i: nat, m: nat)
    requires 3 * n <= |pixels| && i < n && m < 3 + pad
    ensures 0 <= i * (3 + pad) + m < |PixelsAsWritten(pixels, n, pad)|
    ensures PixelsAsWritten(pixels, n, pad)[i * (3 + pad) + m] == if m < 3 then pixels[3 * i + m] else 0
  {
    var before := PixelsAsWritten(pixels, n - 1, pad);
    var last := pixels[3 * (n - 1)..3 * n] + Zeros(pad);
    assert PixelsAsWritten(pixels, n, pad) == before + last;
    PixelsAsWrittenLength(pixels, n - 1, pad);
    if i < n - 1 {
      PixelsAsWrittenAt(pixels, n - 1, pad, i, m);
    } else {
      assert i * (3 + pad) == |before|;
      assert last[m] == if m < 3 then pixels[3 * i + m] else 0;
    }
  }

  lemma PixelsAsWrittenStep(pixels: seq<byte>, n: nat, pad: nat)
    requires 3 * (n + 1) <= |pixels|
    ensures PixelsAsWritten(pixels, n + 1, pad) == PixelsAsWritten(pixels, n, pad) + pixels[3 * n..3 * (n + 1)] + Zeros(pad)
  {
  }

  /** Row y of the buffer begins with pixel number `y * width`, at byte
      `y * 3 * width`. */
  lemma RowFirstPixel(y: int, width: int)
    ensures y * 3 * width == 3 * (y * width)
    ensures y * width + width == (y + 1) * width
  {
  }

  /** The inner writing loop of `main` for the row whose first byte is
      `rowStart` (the source's `y * 3 * width`, computed once per row here):
      pixel x's three bytes at `rowStart + x * 3`, each followed by `pad`
      bytes of `padding`, appended to `out`. `first` is the number of pixels
      written before this row. The loop only reads the buffer, so it is
      given the buffer's contents. */
  method WriteRow(pixels: seq<byte>, rowStart: nat, ghost first: nat, width: nat, pad: nat, out: seq<byte>)
    returns (out': seq<byte>)
    requires rowStart == 3 * first && 3 * (first + width) <= |pixels| && pad < 4
    requires out == PixelsAsWritten(pixels, first, pad)
    ensures out' == PixelsAsWritten(pixels, first + width, pad)
  {
    var padding: seq<byte> := [0, 0, 0];
    assert padding[..pad] == Zeros(pad);
    out' := out;
    var x := 0;
    while x < width
      invariant 0 <= x <= width
      invariant out' == PixelsAsWritten(pixels, first + x, pad)
    {
      var base := rowStart + x * 3;
      PixelsAsWrittenStep(pixels, first + x, pad);
      out' := out' + pixels[base..base + 3] + padding[..pad];
      x := x + 1;
    }
  }

  /** The writing loops of `main`: the rank's rows, pixel after pixel, each
      pixel's three bytes followed by `(width * 3) % 4` zero bytes. The file
      is the sequence of bytes appended to it. */
  method WriteRows(pixels: array<byte>, count: nat, width: nat) returns (out: seq<byte>)
    requires pixels.Length == count * width * 3
    ensures out == PixelsAsWritten(pixels[..], count * width, PadAsWritten(width))
  {
    var pad := (width * 3) % 4;
    out := [];
    var y := 0;
    while y < count
      invariant 0 <= y <= count
      invariant out == PixelsAsWritten(pixels[..], y * width, pad)
    {
      RowFirstPixel(y, width);
      MulMono(y + 1, count, width);
      out := WriteRow(pixels[..], y * 3 * width, y * width, width, pad, out);
      y := y + 1;
    }
  }

  /** With an odd height the image is `2 * height` pixels wide, `main` pads
      every pixel with two bytes, and a row occupies `10 * height` bytes,
      which is never a multiple of 4 (rows of a 24-bit BMP are). */
  lemma OddHeightRowsMisaligned(pixels: seq<byte>, height: nat)
    requires height % 2 == 1 && |pixels| == 2 * height * 3
    ensures PadAsWritten(2 * height) == 2
    ensures |PixelsAsWritten(pixels, 2 * height, PadAsWritten(2 * height))| == 10 * height
    ensures (10 * height) % 4 == 2
  {
    PixelsAsWrittenLength(pixels, 2 * height, 2);
    var k := height / 2;
    assert height == 2 * k + 1;
    DivModUnique(2 * height * 3, 3 * k + 1, 2, 4);
    DivModUnique(10 * height, 5 * k + 2, 2, 4);
  }

  /** A height of 1: the single row of 2 pixels is written as 10 bytes, each
      pixel followed by two zero bytes, not as the 8 bytes (6 bytes padded to
      a multiple of 4) of a BMP row. */
  lemma OnePixelRowWritten(pixels: seq<byte>)
    requires |pixels| == 6
    ensures PadAsWritten(2) == 2
    ensures PixelsAsWritten(pixels, 2, 2) == pixels[0..3] + Zeros(2) + pixels[3..6] + Zeros(2)
    ensures |PixelsAsWritten(pixels, 2, 2)| == 10 && Stride(2) == 8
  {
    PixelsAsWrittenStep(pixels, 0, 2);
    assert PixelsAsWritten(pixels, 1, 2) == pixels[0..3] + Zeros(2);
    PixelsAsWrittenStep(pixels, 1, 2);
  }

  /** Bytes of padding that bring a row of `width` pixels to a multiple of 4. */
  function RowPad(width: nat): (pad: nat)
    ensures pad < 4 && (width * 3 + pad) % 4 == 0
  {
    (4 - (width * 3) % 4) % 4
  }

  /** Length of a padded row: three bytes per pixel, rounded up to a multiple
      of 4. */
  function Stride(width: nat): nat
  {
    width * 3 + RowPad(width)
  }

  /** A padded row is the shortest run of whole 4-byte words that holds the
      row's pixels. */
  lemma StrideAligned(width: nat)
    ensures Stride(width) % 4 == 0 && width * 3 <= Stride(width) < width * 3 + 4
  {
  }

  /** The evident intent: the first n rows of the buffer, each followed by
      `RowPad(width)` zero bytes. */
  function PaddedRows(pixels: seq<byte>, n: nat, width: nat): (out: seq<byte>)
    requires n * width * 3 <= |pixels|
    ensures |out| == n * Stride(width)
  {
    if n == 0 then []
    else
      RowBounds(n, width);
      PaddedRows(pixels, n - 1, width) + pixels[(n - 1) * width * 3..n * width * 3] + Zeros(RowPad(width))
  }

  lemma RowBounds(n: nat, width: nat)
    requires n > 0
    ensures 0 <= (n - 1) * width * 3
    ensures (n - 1) * width * 3 + width * 3 == n * width * 3
    ensures (n - 1) * Stride(width) + Stride(width) == n * Stride(width)
  {
    MulMono(0, n - 1, width);
  }

  lemma RowScale(y: int, width: int)
    ensures y * (3 * width) == y * width * 3
  {
  }

  /** Row y of a padded image starts after y padded rows. */
  lemma RowStart(y: nat, n: nat, width: nat, j: nat)
    requires y < n && j < Stride(width)
    ensures 0 <= y * Stride(width) + j < n * Stride(width)
    ensures y < n - 1 ==> y * Stride(width) + j < (n - 1) * Stride(width)
  {
    var stride := Stride(width);
    MulMono(0, y, stride);
    MulAddRight(y, 1, stride);
    MulMono(y + 1, n, stride);
    if y < n - 1 {
      MulMono(y + 1, n - 1, stride);
    }
  }

  /** Padded rows have the layout of 24-bit BMP pixel data: every row starts
      at a multiple of 4, and colour byte k of pixel (x, y) sits at
      `y * Stride(width) + x * 3 + k`. */
  lemma {:induction false} PaddedRowsLayout(pixels: seq<byte>, n: nat, width: nat, y: nat, x: nat, k: nat)
    requires n * width * 3 <= |pixels| && y < n && x < width && k < 3
    ensures Stride(width) % 4 == 0
    ensures 0 <= y * Stride(width) + x * 3 + k < |PaddedRows(pixels, n, width)|
    ensures 0 <= PixelIndex(y, x, k, width) < |pixels|
    ensures PaddedRows(pixels, n, width)[y * Stride(width) + x * 3 + k] == pixels[PixelIndex(y, x, k, width)]
  {
    PixelIndexInBuffer(n, width, y, x, k);
    RowStart(y, n, width, x * 3 + k);
    RowBounds(n, width);
    MulMono(n - 1, n, width * 3);
    var before := PaddedRows(pixels, n - 1, width);
    var row := pixels[(n - 1) * width * 3..n * width * 3];
    assert PaddedRows(pixels, n, width) == before + row + Zeros(RowPad(width));
    if y < n - 1 {
      PaddedRowsLayout(pixels, n - 1, width, y, x, k);
    } else {
      PixelIndexSplit(y, x, k, width);
      RowScale(y, width);
      assert |before| == y * Stride(width);
    }
  }

  /** The padding bytes at the end of every padded row are zero. */
  lemma {:induction false} PaddedRowsPadding(pixels: seq<byte>, n: nat, width: nat, y: nat, j: nat)
    requires n * width * 3 <= |pixels| && y < n && width * 3 <= j < Stride(width)
    ensures 0 <= y * Stride(width) + j < |PaddedRows(pixels, n, width)|
    ensures PaddedRows(pixels, n, width)[y * Stride(width) + j] == 0
  {
    RowStart(y, n, width, j);
    RowBounds(n, width);
    MulMono(n - 1, n, width * 3);
    var before := PaddedRows(pixels, n - 1, width);
    var row := pixels[(n - 1) * width * 3..n * width * 3];
    assert PaddedRows(pixels, n, width) == before + row + Zeros(RowPad(width));
    if y < n - 1 {
      PaddedRowsPadding(pixels, n - 1, width, y, j);
    } else {
      assert |before| == y * Stride(width);
    }
  }
}
