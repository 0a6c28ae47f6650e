/**
 * NV12 surfaces: a plane of luma rows followed by half as many rows of interleaved chroma, all rows
 * equally wide. Drivers hand surfaces over with a row pitch; host and client both copy them tight.
 */
module Nv12 {
  import opened Wrappers
  import opened Octets
  import opened Spans

  datatype CodecError = InvalidDimensions | InvalidFrame | InvalidSurface | BackendLost

  const MAX_SURFACE_WIDTH: u32 := 7680
  const MAX_SURFACE_HEIGHT: u32 := 4320

  // ---- The layout --------------------------------------------------------------------------

  datatype Layout = Layout(width: nat, height: nat, bgraStride: nat, bgraLen: nat, yLen: nat, outputLen: nat)

  predicate Even(width: u32, height: u32) {
    width != 0 && height != 0 && width % 2 == 0 && height % 2 == 0
  }

  /** `Nv12Layout::from_bgra_dimensions`. Only the BGRA length can overflow 64 bits: it is the largest. */
  function LayoutOf(width: u32, height: u32): Result<Layout, CodecError> {
    if !Even(width, height) then Err(InvalidDimensions)
    else if 4 * width * height > U64_MAX then Err(InvalidFrame)
    else
      var yLen := width * height;
      Ok(Layout(width, height, 4 * width, 4 * width * height, yLen, yLen + yLen / 2))
  }

  /** Luma rows plus chroma rows. */
  function RowCount(height: nat): nat {
    height + height / 2
  }

  lemma Halves(total: nat, half: nat)
    requires total == half + half
    ensures total / 2 == half
  {
  }

  lemma Products(width: nat, height: nat)
    ensures width * height == height * width
    ensures 4 * width * height == height * (4 * width) == 4 * (width * height)
  {
  }

  /** The layout's lengths, counted in rows. */
  lemma LayoutLength(width: u32, height: u32)
    requires LayoutOf(width, height).Ok?
    ensures var l := LayoutOf(width, height).value;
            && l.bgraLen == Span(height, 4 * width) <= U64_MAX
            && l.yLen == Span(height, width)
            && l.outputLen == Span(height, width) + Span(height / 2, width) == Span(RowCount(height), width)
            && l.outputLen <= l.bgraLen
  {
    var half := height / 2;
    Products(width, height);
    SpanIsProduct(height, width);
    SpanIsProduct(height, 4 * width);
    assert half + half == height;
    SpanAdds(half, half, width);
    Halves(width * height, Span(half, width));
    SpanAdds(height, half, width);
  }

  /** Once a layout is constructed, every byte of a pixel lies in the BGRA buffer, whose length fits 64 bits. */
  lemma PixelOffsetFits(width: u32, height: u32, row: nat, column: nat)
    requires LayoutOf(width, height).Ok? && row < height && column < width
    ensures var l := LayoutOf(width, height).value;
            0 <= row * l.bgraStride + column * 4 < row * l.bgraStride + column * 4 + 4 <= l.bgraLen <= U64_MAX
  {
    LayoutLength(width, height);
    SpanFits(row, height, 4 * width);
    SpanIsProduct(row, 4 * width);
  }

  /** Every luma offset lies in the luma plane. */
  lemma LumaOffsetFits(width: u32, height: u32, row: nat, column: nat)
    requires LayoutOf(width, height).Ok? && row < height && column < width
    ensures var l := LayoutOf(width, height).value; 0 <= row * l.width + column < l.yLen <= l.outputLen
  {
    LayoutLength(width, height);
    SpanFits(row, height, width);
    SpanIsProduct(row, width);
  }

  /** Every chroma row lies behind the luma plane and in the output, which is no longer than the BGRA buffer. */
  lemma ChromaOffsetFits(width: u32, height: u32, half: nat)
    requires LayoutOf(width, height).Ok? && half < height / 2
    ensures var l := LayoutOf(width, height).value;
            l.yLen <= l.yLen + half * l.width < l.yLen + half * l.width + l.width <= l.outputLen <= l.bgraLen
  {
    LayoutLength(width, height);
    SpanFits(half, height / 2, width);
    SpanIsProduct(half, width);
  }

  // ---- Rows --------------------------------------------------------------------------------

  /** The first `n` rows of `width` samples out of a surface with the given pitch, end to end. */
  function Rows(source: Bytes, pitch: nat, width: nat, n: nat): (packed: Bytes)
    requires width <= pitch && Span(n, pitch) <= |source|
    ensures |packed| == Span(n, width)
  {
    if n == 0 then []
    else
      var start := Span(n - 1, pitch);
      Rows(source, pitch, width, n - 1) + source[start..start + width]
  }

  /** The byte at an offset, if there is one. */
  function At(s: Bytes, offset: int): Option<byte> {
    if 0 <= offset < |s| then Some(s[offset]) else None
  }

  lemma {:induction false} RowsAtSpan(source: Bytes, pitch: nat, width: nat, n: nat, row: nat, column: nat)
    requires width <= pitch && Span(n, pitch) <= |source| && row < n && column < width
    ensures Span(row, width) + column < Span(n, width) && Span(row, pitch) + column < |source|
    ensures Rows(source, pitch, width, n)[Span(row, width) + column] == source[Span(row, pitch) + column]
  {
    SpanFits(row, n, pitch);
    SpanFits(row, n, width);
    if row < n - 1 {
      RowsAtSpan(source, pitch, width, n - 1, row, column);
    }
  }

  /** Every sample of the tight copy is the visible sample at the same row and column. */
  lemma RowsAt(source: Bytes, pitch: nat, width: nat, n: nat, row: nat, column: nat)
    requires width <= pitch && Span(n, pitch) <= |source| && row < n && column < width
    ensures At(source, row * pitch + column).Some?
    ensures At(Rows(source, pitch, width, n), row * width + column) == At(source, row * pitch + column)
  {
    RowsAtSpan(source, pitch, width, n, row, column);
    SpanIsProduct(row, width);
    SpanIsProduct(row, pitch);
  }

  /** The surface shows `tight`: whatever lies between the rows, each row holds the row of `tight`. */
  ghost predicate Shows(source: Bytes, pitch: nat, width: nat, n: nat, tight: Bytes) {
    forall row: nat :: row < n ==> RowMatches(source, pitch, width, row, tight)
  }

  ghost predicate RowMatches(source: Bytes, pitch: nat, width: nat, row: nat, tight: Bytes) {
    var from, at := Span(row, pitch), Span(row, width);
    from + width <= |source| && at + width <= |tight| && source[from..from + width] == tight[at..at + width]
  }

  /** Copying recovers exactly the picture shown and nothing of the padding. */
  lemma {:induction false} RowsRecover(source: Bytes, pitch: nat, width: nat, n: nat, tight: Bytes)
    requires width <= pitch && Span(n, pitch) <= |source| && |tight| == Span(n, width)
    ensures Rows(source, pitch, width, n) == tight <==> Shows(source, pitch, width, n, tight)
  {
    if n > 0 {
      RowsRecover(source, pitch, width, n - 1, tight[..Span(n - 1, width)]);
      LastRow(source, pitch, width, n, tight);
      RowsShown(source, pitch, width, n, tight);
    }
  }

  /** The copy is right if and only if it is right up to the last row and the last row is. */
  lemma LastRow(source: Bytes, pitch: nat, width: nat, n: nat, tight: Bytes)
    requires width <= pitch && n > 0 && Span(n, pitch) <= |source| && |tight| == Span(n, width)
    ensures Rows(source, pitch, width, n) == tight <==>
              && Rows(source, pitch, width, n - 1) == tight[..Span(n - 1, width)]
              && RowMatches(source, pitch, width, n - 1, tight)
  {
    var from, at := Span(n - 1, pitch), Span(n - 1, width);
    var packed, last := Rows(source, pitch, width, n - 1), source[from..from + width];
    assert Rows(source, pitch, width, n) == packed + last && |packed| == at && |tight| == at + width;
    SplitsAt(packed, last, tight);
    assert tight[at..] == tight[at..at + width];
    assert RowMatches(source, pitch, width, n - 1, tight) <==> last == tight[at..];
  }

  lemma SplitsAt(a: Bytes, b: Bytes, whole: Bytes)
    requires |whole| == |a| + |b|
    ensures a + b == whole <==> a == whole[..|a|] && b == whole[|a|..]
  {
    assert whole == whole[..|a|] + whole[|a|..];
    assert (a + b)[..|a|] == a && (a + b)[|a|..] == b;
  }

  lemma RowsShown(source: Bytes, pitch: nat, width: nat, n: nat, tight: Bytes)
    requires width <= pitch && Span(n, pitch) <= |source| && |tight| == Span(n, width) && n > 0
    ensures Shows(source, pitch, width, n, tight) <==>
              && Shows(source, pitch, width, n - 1, tight[..Span(n - 1, width)])
              && RowMatches(source, pitch, width, n - 1, tight)
  {
    var init := tight[..Span(n - 1, width)];
    forall row: nat | row < n - 1
      ensures RowMatches(source, pitch, width, row, init) <==> RowMatches(source, pitch, width, row, tight)
    {
      SpanFits(row, n - 1, width);
      var at := Span(row, width);
      assert init[at..at + width] == tight[at..at + width];
    }
  }

  // ---- The two copies ----------------------------------------------------------------------

  /** `copy_pitched_nv12` on the host. */
  function CopyPitched(mapped: Bytes, pitch: u64, layout: Layout): Result<Bytes, CodecError> {
    var rows := RowCount(layout.height);
    SpanIsProduct(rows, pitch);
    if pitch < layout.width then Err(BackendLost)
    else if rows * pitch > U64_MAX then Err(BackendLost)
    else if |mapped| < rows * pitch then Err(BackendLost)
    else Ok(Rows(mapped, pitch, layout.width, rows))
  }

  /** `repack_nv12` on the client. Its surface-size limit cannot be exceeded within the dimension limits. */
  function Repack(source: Bytes, stride: u64, width: u32, height: u32): Result<Bytes, CodecError> {
    var rows := RowCount(height);
    SpanIsProduct(rows, stride);
    if !Even(width, height) || width > MAX_SURFACE_WIDTH || height > MAX_SURFACE_HEIGHT then Err(InvalidDimensions)
    else if stride < width then Err(InvalidSurface)
    else if rows * stride > U64_MAX then Err(InvalidDimensions)
    else if |source| < rows * stride then Err(InvalidSurface)
    else Ok(Rows(source, stride, width, rows))
  }

  /** `copy_from_slice` of one row, appended to what is already copied. */
  method CopyRow(source: Bytes, start: nat, width: nat, destination: nat, out: array<byte>)
    requires destination + width <= out.Length && start + width <= |source|
    modifies out
    ensures out[..destination + width] == old(out[..destination]) + source[start..start + width]
  {
    forall column | 0 <= column < width {
      out[destination + column] := source[start + column];
    }
  }

  /** One plane loop: rows `from` to `end`, counted through both planes. */
  method CopyPlane(
    source: Bytes, pitch: nat, width: nat, from: nat, end: nat, sourceStart: nat, copyStart: nat, out: array<byte>)
    requires width <= pitch && from <= end && Span(end, pitch) <= |source| && Span(end, width) <= out.Length
    requires sourceStart == Span(from, pitch) <= |source| && copyStart == Span(from, width) <= out.Length
    requires out[..copyStart] == Rows(source, pitch, width, from)
    modifies out
    ensures out[..Span(end, width)] == Rows(source, pitch, width, end)
  {
    var start, destination := sourceStart, copyStart;
    var row := from;
    while row < end
      invariant from <= row <= end
      invariant start == Span(row, pitch) <= |source| && destination == Span(row, width) <= out.Length
      invariant out[..destination] == Rows(source, pitch, width, row)
    {
      SpanFits(row, end, pitch);
      SpanFits(row, end, width);
      CopyRow(source, start, width, destination, out);
      start, destination, row := start + pitch, destination + width, row + 1;
    }
  }

  /** Both planes: the chroma rows continue where the luma rows stop, in the surface and in the copy. */
  method CopyPlanes(source: Bytes, pitch: nat, width: nat, height: nat, yLen: nat, out: array<byte>)
    requires width <= pitch && Span(RowCount(height), pitch) <= |source|
    requires yLen == Span(height, width) && out.Length == Span(RowCount(height), width)
    modifies out
    ensures out[..] == Rows(source, pitch, width, RowCount(height))
  {
    SpanAdds(height, height / 2, pitch);
    SpanAdds(height, height / 2, width);
    SpanIsProduct(height, pitch);
    CopyPlane(source, pitch, width, 0, height, 0, 0, out);
    CopyPlane(source, pitch, width, height, RowCount(height), height * pitch, yLen, out);
    assert out[..out.Length] == out[..];
  }

  method CopyPitchedNv12(mapped: Bytes, pitch: u64, width: u32, height: u32) returns (r: Result<Bytes, CodecError>)
    ensures r == if LayoutOf(width, height).Err? then Err(LayoutOf(width, height).error)
                 else CopyPitched(mapped, pitch, LayoutOf(width, height).value)
  {
    var layout := LayoutOf(width, height);
    if layout.Err? { return Err(layout.error); }
    var l := layout.value;
    if pitch < l.width { return Err(BackendLost); }
    var rows := RowCount(l.height);
    if rows * pitch > U64_MAX { return Err(BackendLost); }
    if |mapped| < rows * pitch { return Err(BackendLost); }
    LayoutLength(width, height);
    SpanIsProduct(rows, pitch);
    var out := new byte[l.outputLen];
    CopyPlanes(mapped, pitch, l.width, l.height, l.yLen, out);
    r := Ok(out[..]);
  }

  method RepackNv12(source: Bytes, stride: u64, width: u32, height: u32) returns (r: Result<Bytes, CodecError>)
    ensures r == Repack(source, stride, width, height)
  {
    if !Even(width, height) || width > MAX_SURFACE_WIDTH || height > MAX_SURFACE_HEIGHT {
      return Err(InvalidDimensions);
    }
    var pixels := width * height;
    if stride < width { return Err(InvalidSurface); }
    var rows := RowCount(height);
    if rows * stride > U64_MAX { return Err(InvalidDimensions); }
    if |source| < rows * stride { return Err(InvalidSurface); }
    SurfaceHasLayout(width, height);
    LayoutLength(width, height);
    SpanIsProduct(rows, stride);
    var packed := new byte[pixels + pixels / 2];
    CopyPlanes(source, stride, width, height, pixels, packed);
    r := Ok(packed[..]);
  }

  /** A surface within the client's limits has a layout, and its samples are within 64 MiB. */
  lemma SurfaceHasLayout(width: u32, height: u32)
    requires Even(width, height) && width <= MAX_SURFACE_WIDTH && height <= MAX_SURFACE_HEIGHT
    ensures LayoutOf(width, height).Ok? && LayoutOf(width, height).value.outputLen <= 64 * 1024 * 1024
  {
    SpanIsProduct(height, width);
    SpanIsMonotone(height, width, 7680);
    SpanIsProduct(height, 7680);
    Products(width, height);
  }

  /** Within the client's dimension limits, host and client accept the same surfaces and produce the same
      tight buffer, which is never larger than 64 MiB. */
  lemma HostAndClientAgree(source: Bytes, pitch: u64, width: u32, height: u32)
    requires width <= MAX_SURFACE_WIDTH && height <= MAX_SURFACE_HEIGHT && Even(width, height)
    ensures LayoutOf(width, height).Ok?
    ensures var l := LayoutOf(width, height).value;
            var host, client := CopyPitched(source, pitch, l), Repack(source, pitch, width, height);
            && (host.Ok? <==> client.Ok?)
            && (host.Ok? ==> host.value == client.value && |host.value| == l.outputLen <= 64 * 1024 * 1024)
  {
    SurfaceHasLayout(width, height);
    LayoutLength(width, height);
  }

  /** A picture has a layout exactly when its dimensions are even and not zero and its bytes can be counted. */
  lemma LayoutExactly(width: u32, height: u32)
    ensures LayoutOf(width, height).Ok? <==>
              0 < width && 0 < height && width % 2 == 0 && height % 2 == 0 && 4 * width * height <= U64_MAX
    ensures LayoutOf(width, height) == Err(InvalidFrame) <==>
              0 < width && 0 < height && width % 2 == 0 && height % 2 == 0 && 4 * width * height > U64_MAX
    ensures LayoutOf(width, height).Err? ==> LayoutOf(width, height).error in {InvalidDimensions, InvalidFrame}
  {
  }

  /** The rows of both planes fit a surface of this pitch and length, whose size can be counted. */
  predicate RowsFit(length: nat, pitch: u64, width: nat, height: nat) {
    width <= pitch && RowCount(height) * pitch <= U64_MAX && RowCount(height) * pitch <= length
  }

  /** Either copy is made exactly when the rows of both planes fit the surface; the host reports everything else as a
      lost backend, the client a bad surface apart from bad dimensions. */
  lemma CopiesExactly(source: Bytes, pitch: u64, width: u32, height: u32, layout: Layout)
    requires LayoutOf(width, height) == Ok(layout)
    ensures CopyPitched(source, pitch, layout).Ok? <==> RowsFit(|source|, pitch, width, height)
    ensures CopyPitched(source, pitch, layout).Err? ==> CopyPitched(source, pitch, layout).error == BackendLost
    ensures Repack(source, pitch, width, height).Ok? <==>
              && width <= MAX_SURFACE_WIDTH && height <= MAX_SURFACE_HEIGHT
              && RowsFit(|source|, pitch, width, height)
    ensures Repack(source, pitch, width, height) == Err(InvalidSurface) <==>
              && width <= MAX_SURFACE_WIDTH && height <= MAX_SURFACE_HEIGHT
              && (pitch < width || (|source| < RowCount(height) * pitch <= U64_MAX))
  {
  }
}
