/** BGRA to NV12 conversion in 8.8 fixed point, BT.601 studio range. */
module ColorConversion {
  import opened Wrappers
  import opened Octets
  import opened Nv12
  import opened Spans

  datatype PixelFormat = Native | Bgra8

  datatype CapturedFrame = CapturedFrame(width: u32, height: u32, format: PixelFormat, data: Bytes)

  datatype Pixel = Pixel(b: byte, g: byte, r: byte)

  /** A BGRA picture: four bytes a pixel, row after row. */
  predicate IsPicture(data: Bytes, width: nat, height: nat) {
    |data| == Span(height, 4 * width)
  }

  lemma PictureLength(data: Bytes, width: nat, height: nat)
    ensures Span(height, 4 * width) == 4 * width * height
    ensures IsPicture(data, width, height) <==> |data| == 4 * width * height
  {
    SpanIsProduct(height, 4 * width);
    Products(width, height);
  }

  function PixelAt(data: Bytes, width: nat, height: nat, row: nat, column: nat): Pixel
    requires IsPicture(data, width, height) && row < height && column < width
  {
    SpanFits(row, height, 4 * width);
    var source := Span(row, 4 * width) + 4 * column;
    Pixel(data[source], data[source + 1], data[source + 2])
  }

  /** The three colour channels at the layout's BGRA offset. */
  method ReadPixel(data: Bytes, width: nat, height: nat, stride: nat, row: nat, column: nat) returns (p: Pixel)
    requires IsPicture(data, width, height) && row < height && column < width && stride == 4 * width
    ensures p == PixelAt(data, width, height, row, column)
  {
    SpanFits(row, height, stride);
    SpanIsProduct(row, stride);
    var source := row * stride + column * 4;
    p := Pixel(data[source], data[source + 1], data[source + 2]);
  }

  // Dafny's division rounds toward negative infinity for a positive divisor, as the source's right shift does.

  function Luma(p: Pixel): (y: int)
    ensures 16 <= y <= 235
  {
    (66 * p.r + 129 * p.g + 25 * p.b + 128) / 256 + 16
  }

  datatype Chroma = Blue | Red

  /** The blue or red colour difference. */
  function Difference(chroma: Chroma, p: Pixel): (d: int)
    ensures 16 <= d <= 240
  {
    match chroma
    case Blue => (-38 * p.r - 74 * p.g + 112 * p.b + 128) / 256 + 128
    case Red => (112 * p.r - 94 * p.g - 18 * p.b + 128) / 256 + 128
  }

  // BT.601 studio range, without any fixed-point rounding: for channels 0..255, luma is 16 plus a 255000th of
  // `ExactLuma`, and a colour difference is 128 plus a 255000th of `ExactDifference`.

  function ExactLuma(p: Pixel): int {
    65481 * p.r + 128553 * p.g + 24966 * p.b
  }

  function ExactDifference(chroma: Chroma, p: Pixel): int {
    match chroma
    case Blue => 112000 * p.b - 74203 * p.g - 37797 * p.r
    case Red => 112000 * p.r - 93786 * p.g - 18214 * p.b
  }

  /** Every luma sample is within one step of the BT.601 value. */
  lemma LumaIsClose(p: Pixel)
    ensures -255000 < 255000 * (Luma(p) - 16) - ExactLuma(p) < 255000
    ensures 16 <= Luma(p) <= 235
  {
  }

  /** Either colour difference is within one step of the BT.601 value, and exactly neutral for every grey. */
  lemma DifferenceIsClose(chroma: Chroma, p: Pixel)
    ensures -255000 < 255000 * (Difference(chroma, p) - 128) - ExactDifference(chroma, p) < 255000
    ensures 16 <= Difference(chroma, p) <= 240
    ensures p.r == p.g == p.b ==> Difference(chroma, p) == 128
  {
  }

  function ClampByte(value: int): byte {
    if value < 0 then 0 else if value > 255 then 255 else value
  }

  /** The sum of a colour difference over some pixels. */
  function Total(chroma: Chroma, pixels: seq<Pixel>): (sum: int)
    ensures 16 * |pixels| <= sum <= 240 * |pixels|
  {
    if pixels == [] then 0
    else Total(chroma, pixels[..|pixels| - 1]) + Difference(chroma, pixels[|pixels| - 1])
  }

  /** The two-by-two block whose top left pixel is given. */
  function Block(data: Bytes, width: nat, height: nat, row: nat, column: nat): (pixels: seq<Pixel>)
    requires IsPicture(data, width, height) && row + 1 < height && column + 1 < width
    ensures |pixels| == 4
  {
    [PixelAt(data, width, height, row, column), PixelAt(data, width, height, row, column + 1),
     PixelAt(data, width, height, row + 1, column), PixelAt(data, width, height, row + 1, column + 1)]
  }

  /** A chroma sample: the average over a block. */
  function Average(chroma: Chroma, pixels: seq<Pixel>): (average: byte)
    requires |pixels| == 4
    ensures 16 <= average <= 240
  {
    Total(chroma, pixels) / 4
  }

  // ---- The buffer, given the samples -------------------------------------------------------

  /** The first `n` luma samples of a row. */
  function LumaRow(luma: (nat, nat) -> byte, row: nat, n: nat): (s: Bytes)
    ensures |s| == n && forall i: nat :: i < n ==> s[i] == luma(row, i)
  {
    if n == 0 then [] else LumaRow(luma, row, n - 1) + [luma(row, n - 1)]
  }

  /** The first `n` chroma pairs of a row, blue and red alternating. */
  function ChromaRow(chroma: (nat, nat) -> (byte, byte), half: nat, n: nat): (s: Bytes)
    ensures |s| == 2 * n
  {
    if n == 0 then []
    else
      var (u, v) := chroma(half, n - 1);
      ChromaRow(chroma, half, n - 1) + [u, v]
  }

  function LumaPlane(luma: (nat, nat) -> byte, width: nat, n: nat): (s: Bytes)
    ensures |s| == Span(n, width)
  {
    if n == 0 then [] else LumaPlane(luma, width, n - 1) + LumaRow(luma, n - 1, width)
  }

  function ChromaPlane(chroma: (nat, nat) -> (byte, byte), width: nat, pairs: nat, n: nat): (s: Bytes)
    requires width == 2 * pairs
    ensures |s| == Span(n, width)
  {
    if n == 0 then [] else ChromaPlane(chroma, width, pairs, n - 1) + ChromaRow(chroma, n - 1, pairs)
  }

  /** `height` rows of `width` luma samples, then `halves` rows of `pairs` chroma pairs. */
  function Buffer(
      luma: (nat, nat) -> byte, chroma: (nat, nat) -> (byte, byte),
      width: nat, height: nat, pairs: nat, halves: nat): Bytes
    requires width == 2 * pairs
  {
    LumaPlane(luma, width, height) + ChromaPlane(chroma, width, pairs, halves)
  }

  lemma {:induction false} LumaPlaneAt(luma: (nat, nat) -> byte, width: nat, n: nat, row: nat, column: nat)
    requires row < n && column < width
    ensures Span(row, width) + column < Span(n, width)
    ensures LumaPlane(luma, width, n)[Span(row, width) + column] == luma(row, column)
  {
    SpanFits(row, n, width);
    if row < n - 1 {
      LumaPlaneAt(luma, width, n - 1, row, column);
    }
  }

  lemma {:induction false} ChromaRowAt(chroma: (nat, nat) -> (byte, byte), half: nat, n: nat, pair: nat)
    requires pair < n
    ensures ChromaRow(chroma, half, n)[2 * pair] == chroma(half, pair).0
    ensures ChromaRow(chroma, half, n)[2 * pair + 1] == chroma(half, pair).1
  {
    if pair < n - 1 {
      ChromaRowAt(chroma, half, n - 1, pair);
    }
  }

  lemma {:induction false} ChromaPlaneAt(
      chroma: (nat, nat) -> (byte, byte), width: nat, pairs: nat, n: nat, half: nat, pair: nat)
    requires width == 2 * pairs && half < n && pair < pairs
    ensures Span(half, width) + 2 * pair + 1 < Span(n, width)
    ensures ChromaPlane(chroma, width, pairs, n)[Span(half, width) + 2 * pair] == chroma(half, pair).0
    ensures ChromaPlane(chroma, width, pairs, n)[Span(half, width) + 2 * pair + 1] == chroma(half, pair).1
  {
    SpanFits(half, n, width);
    if half < n - 1 {
      ChromaPlaneAt(chroma, width, pairs, n - 1, half, pair);
    } else {
      ChromaRowAt(chroma, half, pairs, pair);
    }
  }

  lemma BufferLumaAt(
      luma: (nat, nat) -> byte, chroma: (nat, nat) -> (byte, byte), width: nat, height: nat, pairs: nat, halves: nat,
      row: nat, column: nat)
    requires width == 2 * pairs && row < height && column < width
    ensures At(Buffer(luma, chroma, width, height, pairs, halves), row * width + column) == Some(luma(row, column))
  {
    LumaPlaneAt(luma, width, height, row, column);
    SpanIsProduct(row, width);
  }

  lemma BufferChromaAt(
      luma: (nat, nat) -> byte, chroma: (nat, nat) -> (byte, byte), width: nat, height: nat, pairs: nat, halves: nat,
      half: nat, pair: nat)
    requires width == 2 * pairs && half < halves && pair < pairs
    ensures var buffer, at := Buffer(luma, chroma, width, height, pairs, halves), (height + half) * width + 2 * pair;
            At(buffer, at) == Some(chroma(half, pair).0) && At(buffer, at + 1) == Some(chroma(half, pair).1)
  {
    ChromaPlaneAt(chroma, width, pairs, halves, half, pair);
    SpanAdds(height, half, width);
    SpanIsProduct(height + half, width);
  }

  // ---- The samples of a frame --------------------------------------------------------------

  function LumaOf(data: Bytes, width: nat, height: nat): (nat, nat) -> byte
    requires IsPicture(data, width, height)
  {
    (row: nat, column: nat) =>
      if row < height && column < width then Luma(PixelAt(data, width, height, row, column)) else 0
  }

  function ChromaOf(data: Bytes, width: nat, height: nat): (nat, nat) -> (byte, byte)
    requires IsPicture(data, width, height)
  {
    (half: nat, pair: nat) =>
      if 2 * half + 1 < height && 2 * pair + 1 < width
      then
        var block := Block(data, width, height, 2 * half, 2 * pair);
        (Average(Blue, block), Average(Red, block))
      else (0, 0)
  }

  /** The first check a frame fails. */
  function Fault(frame: CapturedFrame): Option<CodecError> {
    if frame.format != Bgra8 || frame.width == 0 || frame.height == 0 then Some(InvalidFrame)
    else if Span(frame.height, 4 * frame.width) > U64_MAX then Some(InvalidFrame)
    else if !IsPicture(frame.data, frame.width, frame.height) then Some(InvalidFrame)
    else if frame.width % 2 != 0 || frame.height % 2 != 0 then Some(InvalidDimensions)
    else None
  }

  /** The NV12 buffer of a BGRA picture of even width and height. */
  function Converted(data: Bytes, width: nat, height: nat, pairs: nat, halves: nat): Bytes
    requires IsPicture(data, width, height) && width == 2 * pairs && height == 2 * halves
  {
    Buffer(LumaOf(data, width, height), ChromaOf(data, width, height), width, height, pairs, halves)
  }

  /** `bgra_to_nv12`. */
  function BgraToNv12(frame: CapturedFrame): Result<Bytes, CodecError> {
    if Fault(frame).Some? then Err(Fault(frame).value)
    else Ok(Converted(frame.data, frame.width, frame.height, frame.width / 2, frame.height / 2))
  }

  /** A converted frame fills exactly the buffer the layout prescribes. */
  lemma ConvertedLength(frame: CapturedFrame)
    requires BgraToNv12(frame).Ok?
    ensures LayoutOf(frame.width, frame.height).Ok?
    ensures |BgraToNv12(frame).value| == LayoutOf(frame.width, frame.height).value.outputLen
  {
    PictureLength(frame.data, frame.width, frame.height);
    LayoutLength(frame.width, frame.height);
  }

  /** A frame is converted exactly when it is BGRA, has as many bytes as its dimensions call for, and both dimensions
      are even; only odd ones are reported as such. */
  lemma ConvertsExactly(frame: CapturedFrame)
    ensures BgraToNv12(frame).Ok? <==> Counted(frame) && frame.width % 2 == 0 && frame.height % 2 == 0
    ensures BgraToNv12(frame) == Err(InvalidDimensions) <==>
              Counted(frame) && !(frame.width % 2 == 0 && frame.height % 2 == 0)
    ensures BgraToNv12(frame) == Err(InvalidFrame) <==> !Counted(frame)
  {
    PictureLength(frame.data, frame.width, frame.height);
  }

  /** A BGRA frame that is not empty and has four bytes for each pixel. */
  predicate Counted(frame: CapturedFrame) {
    && frame.format == Bgra8 && frame.width > 0 && frame.height > 0
    && |frame.data| == 4 * frame.width * frame.height <= U64_MAX
  }

  /** The pixel in a row and column has its blue, green and red bytes there in the buffer, one after the other. */
  lemma PixelBytes(data: Bytes, width: nat, height: nat, row: nat, column: nat)
    requires IsPicture(data, width, height) && row < height && column < width
    ensures var k, p := 4 * (row * width + column), PixelAt(data, width, height, row, column);
            At(data, k) == Some(p.b) && At(data, k + 1) == Some(p.g) && At(data, k + 2) == Some(p.r)
  {
    SpanFits(row, height, 4 * width);
    SpanIsProduct(row, 4 * width);
    Products(width, row);
  }

  /** Each luma sample is its own pixel's, within one step of that pixel's BT.601 luma. */
  lemma LumaOfPixel(data: Bytes, width: nat, height: nat, pairs: nat, halves: nat, row: nat, column: nat)
    requires IsPicture(data, width, height) && width == 2 * pairs && height == 2 * halves
    requires row < height && column < width
    ensures var p := PixelAt(data, width, height, row, column);
            var y := At(Converted(data, width, height, pairs, halves), row * width + column);
            && y == Some(Luma(p))
            && -255000 < 255000 * (y.value as int - 16) - ExactLuma(p) < 255000
  {
    BufferLumaAt(LumaOf(data, width, height), ChromaOf(data, width, height), width, height, pairs, halves, row, column);
    LumaIsClose(PixelAt(data, width, height, row, column));
  }

  lemma ChromaSample(data: Bytes, width: nat, height: nat, half: nat, pair: nat)
    requires IsPicture(data, width, height) && 2 * half + 1 < height && 2 * pair + 1 < width
    ensures var block := Block(data, width, height, 2 * half, 2 * pair);
            ChromaOf(data, width, height)(half, pair) == (Average(Blue, block), Average(Red, block))
  {
  }

  /** The average of the four pixels' differences, up to a step for each pixel and one for the division. */
  predicate AveragesBlock(sample: Option<byte>, chroma: Chroma, p: Pixel, q: Pixel, r: Pixel, s: Pixel) {
    && sample.Some? && 16 <= sample.value <= 240
    && var exact := ExactDifference(chroma, p) + ExactDifference(chroma, q)
                    + ExactDifference(chroma, r) + ExactDifference(chroma, s);
    -7 * 255000 < 4 * 255000 * (sample.value as int - 128) - exact < 4 * 255000
  }

  predicate IsGrey(p: Pixel) {
    p.r == p.g == p.b
  }

  lemma TotalOfFour(chroma: Chroma, p: Pixel, q: Pixel, r: Pixel, s: Pixel)
    ensures Total(chroma, [p, q, r, s])
            == Difference(chroma, p) + Difference(chroma, q) + Difference(chroma, r) + Difference(chroma, s)
  {
    assert [p, q, r, s][..3] == [p, q, r] && [p, q, r][..2] == [p, q] && [p, q][..1] == [p] && [p][..0] == [];
    assert Total(chroma, [p]) == Difference(chroma, p);
    assert Total(chroma, [p, q]) == Difference(chroma, p) + Difference(chroma, q);
    assert Total(chroma, [p, q, r]) == Difference(chroma, p) + Difference(chroma, q) + Difference(chroma, r);
  }

  /** Four values that are each within a step of the exact ones add up to a sum within four, and a quarter of that sum
      rounds down by less than three quarters more. */
  lemma QuarterIsClose(sum: int, exact: int)
    requires -4 * 255000 < 255000 * (sum - 512) - exact < 4 * 255000
    ensures -7 * 255000 < 4 * 255000 * (sum / 4 - 128) - exact < 4 * 255000
  {
    assert sum - 3 <= 4 * (sum / 4) <= sum;
  }

  lemma AverageIsClose(chroma: Chroma, p: Pixel, q: Pixel, r: Pixel, s: Pixel)
    ensures AveragesBlock(Some(Average(chroma, [p, q, r, s])), chroma, p, q, r, s)
  {
    TotalOfFour(chroma, p, q, r, s);
    FourAreClose(chroma, p, q, r, s);
    QuarterIsClose(Total(chroma, [p, q, r, s]),
                   ExactDifference(chroma, p) + ExactDifference(chroma, q)
                   + ExactDifference(chroma, r) + ExactDifference(chroma, s));
  }

  lemma FourAreClose(chroma: Chroma, p: Pixel, q: Pixel, r: Pixel, s: Pixel)
    ensures var sum := Difference(chroma, p) + Difference(chroma, q) + Difference(chroma, r) + Difference(chroma, s);
            var exact := ExactDifference(chroma, p) + ExactDifference(chroma, q)
                         + ExactDifference(chroma, r) + ExactDifference(chroma, s);
            -4 * 255000 < 255000 * (sum - 512) - exact < 4 * 255000
  {
    DifferenceIsClose(chroma, p);
    DifferenceIsClose(chroma, q);
    DifferenceIsClose(chroma, r);
    DifferenceIsClose(chroma, s);
  }

  lemma GreyIsNeutral(chroma: Chroma, p: Pixel, q: Pixel, r: Pixel, s: Pixel)
    requires IsGrey(p) && IsGrey(q) && IsGrey(r) && IsGrey(s)
    ensures Average(chroma, [p, q, r, s]) == 128
  {
    TotalOfFour(chroma, p, q, r, s);
    DifferenceIsClose(chroma, p);
    DifferenceIsClose(chroma, q);
    DifferenceIsClose(chroma, r);
    DifferenceIsClose(chroma, s);
  }

  /** Each chroma pair, in the row where NV12 puts it, averages the blue and the red difference of its own two-by-two
      block, and is neutral for a grey one. */
  lemma ChromaOfBlock(data: Bytes, width: nat, height: nat, pairs: nat, halves: nat, half: nat, pair: nat)
    requires IsPicture(data, width, height) && width == 2 * pairs && height == 2 * halves
    requires half < halves && pair < pairs
    ensures var p, q := PixelAt(data, width, height, 2 * half, 2 * pair),
                        PixelAt(data, width, height, 2 * half, 2 * pair + 1);
            var r, s := PixelAt(data, width, height, 2 * half + 1, 2 * pair),
                        PixelAt(data, width, height, 2 * half + 1, 2 * pair + 1);
            var buffer, at := Converted(data, width, height, pairs, halves), (height + half) * width + 2 * pair;
            && AveragesBlock(At(buffer, at), Blue, p, q, r, s) && AveragesBlock(At(buffer, at + 1), Red, p, q, r, s)
            && (IsGrey(p) && IsGrey(q) && IsGrey(r) && IsGrey(s) ==>
                  At(buffer, at) == Some(128) && At(buffer, at + 1) == Some(128))
  {
    ChromaSample(data, width, height, half, pair);
    var luma, chroma := LumaOf(data, width, height), ChromaOf(data, width, height);
    BufferChromaAt(luma, chroma, width, height, pairs, halves, half, pair);
    var block := Block(data, width, height, 2 * half, 2 * pair);
    AverageIsClose(Blue, block[0], block[1], block[2], block[3]);
    AverageIsClose(Red, block[0], block[1], block[2], block[3]);
    if IsGrey(block[0]) && IsGrey(block[1]) && IsGrey(block[2]) && IsGrey(block[3]) {
      GreyIsNeutral(Blue, block[0], block[1], block[2], block[3]);
      GreyIsNeutral(Red, block[0], block[1], block[2], block[3]);
    }
  }

  // ---- The loops ---------------------------------------------------------------------------

  /** Marks a position, so that the samples are unfolded there and nowhere else. */
  predicate Considered(i: nat, j: nat) { true }

  /** What the loops are told about the samples, instantiated only at the positions a proof names as considered. */
  ghost predicate AreSamples(
      luma: (nat, nat) -> byte, chroma: (nat, nat) -> (byte, byte), data: Bytes, width: nat, height: nat)
    requires IsPicture(data, width, height)
  {
    && (forall row: nat, column: nat {:trigger Considered(row, column)} ::
          Considered(row, column) && row < height && column < width ==>
          luma(row, column) == LumaOf(data, width, height)(row, column))
    && (forall half: nat, pair: nat {:trigger Considered(half, pair)} ::
          Considered(half, pair) && 2 * half + 1 < height && 2 * pair + 1 < width ==>
          chroma(half, pair) == ChromaOf(data, width, height)(half, pair))
  }

  method LumaSample(data: Bytes, width: nat, height: nat, row: nat, column: nat,
                    ghost luma: (nat, nat) -> byte, ghost chroma: (nat, nat) -> (byte, byte)) returns (y: byte)
    requires IsPicture(data, width, height) && row < height && column < width
    requires AreSamples(luma, chroma, data, width, height)
    ensures y == luma(row, column)
  {
    assert Considered(row, column);
    var p := ReadPixel(data, width, height, 4 * width, row, column);
    y := ClampByte((66 * p.r + 129 * p.g + 25 * p.b + 128) / 256 + 16);
  }

  method FillLumaRow(data: Bytes, width: nat, height: nat, row: nat, destination: nat, out: array<byte>,
                     ghost luma: (nat, nat) -> byte, ghost chroma: (nat, nat) -> (byte, byte))
    requires IsPicture(data, width, height) && row < height && destination + width <= out.Length
    requires AreSamples(luma, chroma, data, width, height)
    modifies out
    ensures out[..destination + width] == old(out[..destination]) + LumaRow(luma, row, width)
  {
    for column := 0 to width
      invariant out[..destination + column] == old(out[..destination]) + LumaRow(luma, row, column)
    {
      out[destination + column] := LumaSample(data, width, height, row, column, luma, chroma);
      assert out[..destination + column + 1] == out[..destination + column] + [out[destination + column]];
    }
  }

  /** The inner loops over a two-by-two block. */
  method BlockSums(data: Bytes, width: nat, height: nat, row: nat, column: nat) returns (uSum: int, vSum: int)
    requires IsPicture(data, width, height) && row + 1 < height && column + 1 < width
    ensures uSum == Total(Blue, Block(data, width, height, row, column))
    ensures vSum == Total(Red, Block(data, width, height, row, column))
  {
    ghost var block := Block(data, width, height, row, column);
    uSum, vSum := 0, 0;
    ghost var k := 0;
    for rowOffset := 0 to 2
      invariant k == 2 * rowOffset
      invariant uSum == Total(Blue, block[..k]) && vSum == Total(Red, block[..k])
    {
      uSum, vSum := AddPair(
        data, width, height, row + rowOffset, column, uSum, vSum, block[..k], block[k], block[k + 1]);
      TwoMore(block, k);
      k := k + 2;
    }
    assert block[..k] == block;
  }

  lemma TwoMore(block: seq<Pixel>, k: nat)
    requires k + 2 <= |block|
    ensures block[..k + 2] == block[..k] + [block[k]] + [block[k + 1]]
  {
  }

  /** The innermost loop, over two neighbouring pixels. */
  method AddPair(data: Bytes, width: nat, height: nat, row: nat, column: nat,
                 uBefore: int, vBefore: int, ghost before: seq<Pixel>, ghost left: Pixel, ghost right: Pixel)
    returns (uSum: int, vSum: int)
    requires IsPicture(data, width, height) && row < height && column + 1 < width
    requires left == PixelAt(data, width, height, row, column) && right == PixelAt(data, width, height, row, column + 1)
    requires uBefore == Total(Blue, before) && vBefore == Total(Red, before)
    ensures uSum == Total(Blue, before + [left] + [right]) && vSum == Total(Red, before + [left] + [right])
  {
    uSum, vSum := uBefore, vBefore;
    ghost var added := before;
    for columnOffset := 0 to 2
      invariant columnOffset == 0 ==> added == before
      invariant columnOffset == 1 ==> added == before + [left]
      invariant columnOffset == 2 ==> added == before + [left] + [right]
      invariant uSum == Total(Blue, added) && vSum == Total(Red, added)
    {
      var p := ReadPixel(data, width, height, 4 * width, row, column + columnOffset);
      assert p == if columnOffset == 0 then left else right;
      uSum, vSum := AddPixel(p, uSum, vSum, added);
      added := added + [p];
    }
  }

  method AddPixel(p: Pixel, uBefore: int, vBefore: int, ghost before: seq<Pixel>) returns (uSum: int, vSum: int)
    requires uBefore == Total(Blue, before) && vBefore == Total(Red, before)
    ensures uSum == Total(Blue, before + [p]) && vSum == Total(Red, before + [p])
  {
    assert (before + [p])[..|before|] == before;
    uSum := uBefore + (-38 * p.r - 74 * p.g + 112 * p.b + 128) / 256 + 128;
    vSum := vBefore + (112 * p.r - 94 * p.g - 18 * p.b + 128) / 256 + 128;
  }

  method ChromaPair(data: Bytes, width: nat, height: nat, half: nat, pair: nat,
                    ghost luma: (nat, nat) -> byte, ghost chroma: (nat, nat) -> (byte, byte)) returns (u: byte, v: byte)
    requires IsPicture(data, width, height) && 2 * half + 1 < height && 2 * pair + 1 < width
    requires AreSamples(luma, chroma, data, width, height)
    ensures (u, v) == chroma(half, pair)
  {
    assert Considered(half, pair);
    var uSum, vSum := BlockSums(data, width, height, 2 * half, 2 * pair);
    u, v := ClampByte(uSum / 4), ClampByte(vSum / 4);
  }

  method FillChromaRow(data: Bytes, width: nat, height: nat, half: nat, pairs: nat, destination: nat, out: array<byte>,
                       ghost luma: (nat, nat) -> byte, ghost chroma: (nat, nat) -> (byte, byte))
    requires IsPicture(data, width, height) && width == 2 * pairs && 2 * half + 1 < height
    requires destination + width <= out.Length
    requires AreSamples(luma, chroma, data, width, height)
    modifies out
    ensures out[..destination + width] == old(out[..destination]) + ChromaRow(chroma, half, pairs)
  {
    var at, pair := destination, 0;
    while pair < pairs
      invariant 0 <= pair <= pairs && at == destination + 2 * pair
      invariant out[..at] == old(out[..destination]) + ChromaRow(chroma, half, pair)
    {
      var u, v := ChromaPair(data, width, height, half, pair, luma, chroma);
      out[at] := u;
      out[at + 1] := v;
      assert out[..at + 2] == out[..at] + [u, v];
      at, pair := at + 2, pair + 1;
    }
  }

  method FillLuma(data: Bytes, width: nat, height: nat, out: array<byte>,
                  ghost luma: (nat, nat) -> byte, ghost chroma: (nat, nat) -> (byte, byte))
    requires IsPicture(data, width, height) && Span(height, width) <= out.Length
    requires AreSamples(luma, chroma, data, width, height)
    modifies out
    ensures out[..Span(height, width)] == LumaPlane(luma, width, height)
  {
    var destination, row := 0, 0;
    while row < height
      invariant 0 <= row <= height && destination == Span(row, width) <= out.Length
      invariant out[..destination] == LumaPlane(luma, width, row)
    {
      SpanFits(row, height, width);
      FillLumaRow(data, width, height, row, destination, out, luma, chroma);
      destination, row := destination + width, row + 1;
    }
  }

  method FillChroma(data: Bytes, width: nat, height: nat, pairs: nat, halves: nat, yLen: nat, out: array<byte>,
                    ghost luma: (nat, nat) -> byte, ghost chroma: (nat, nat) -> (byte, byte))
    requires IsPicture(data, width, height) && width == 2 * pairs && height == 2 * halves
    requires AreSamples(luma, chroma, data, width, height)
    requires out.Length == yLen + Span(halves, width)
    modifies out
    ensures out[..] == old(out[..yLen]) + ChromaPlane(chroma, width, pairs, halves)
  {
    ghost var plane := out[..yLen];
    var destination, half := yLen, 0;
    while half < halves
      invariant 0 <= half <= halves && destination == yLen + Span(half, width) <= out.Length
      invariant out[..destination] == plane + ChromaPlane(chroma, width, pairs, half)
    {
      SpanFits(half, halves, width);
      FillChromaRow(data, width, height, half, pairs, destination, out, luma, chroma);
      Associative(plane, ChromaPlane(chroma, width, pairs, half), ChromaRow(chroma, half, pairs));
      destination, half := destination + width, half + 1;
    }
    assert out[..out.Length] == out[..];
  }

  lemma Associative(a: Bytes, b: Bytes, c: Bytes)
    ensures (a + b) + c == a + (b + c)
  {
  }

  /** The layout's own length check repeats the frame's and is left out. */
  method Convert(frame: CapturedFrame) returns (r: Result<Bytes, CodecError>)
    ensures r == BgraToNv12(frame)
  {
    if frame.format != Bgra8 || frame.width == 0 || frame.height == 0 { return Err(InvalidFrame); }
    PictureLength(frame.data, frame.width, frame.height);
    if 4 * frame.width * frame.height > U64_MAX { return Err(InvalidFrame); }
    if |frame.data| != 4 * frame.width * frame.height { return Err(InvalidFrame); }
    var layout := LayoutOf(frame.width, frame.height);
    if layout.Err? { return Err(layout.error); }
    var width, height := layout.value.width, layout.value.height;
    LayoutLength(frame.width, frame.height);
    var nv12 := new byte[layout.value.outputLen];
    ghost var luma, chroma := LumaOf(frame.data, width, height), ChromaOf(frame.data, width, height);
    FillLuma(frame.data, width, height, nv12, luma, chroma);
    FillChroma(frame.data, width, height, width / 2, height / 2, layout.value.yLen, nv12, luma, chroma);
    r := Ok(nv12[..]);
  }
}
