/** The sampler: at resolution r > 1 the top-left pixel of every r-by-r block
    is copied, row by row, into a fresh buffer; at resolution 1 the frame
    itself is the pixel array. */
module Sampler {
  import opened Bytes
  import opened Screen

  /** Byte offset of pixel (row, col) in a frame of x-pixel rows: the
      source's pixIdx. */
  function PixelIndex(x: int, pixelBytes: int, row: int, col: int): int {
    (row * x + col) * pixelBytes
  }

  /** The pixelBytes bytes of pixel (row, col) of the frame (empty for a pixel
      outside it, which the capture never asks for). */
  function PixelAt(frame: seq<byte>, x: int, pixelBytes: nat, row: int, col: int): seq<byte> {
    var at := PixelIndex(x, pixelBytes, row, col);
    if 0 <= at && at + pixelBytes <= |frame| then seq(pixelBytes, i requires 0 <= i < pixelBytes => frame[at + i]) else []
  }

  /** blocks(0), blocks(1), ..., blocks(n - 1), one after the other. */
  function Concat(n: int, blocks: int -> seq<byte>): seq<byte>
    decreases n
  {
    if n <= 0 then [] else Concat(n - 1, blocks) + blocks(n - 1)
  }

  /** Sampled pixel c of source row `row`: the source pixel in column c * r. */
  function SampledPixel(frame: seq<byte>, x: int, pixelBytes: nat, r: int, row: int, c: int): seq<byte> {
    PixelAt(frame, x, pixelBytes, row, c * r)
  }

  function RowPixels(frame: seq<byte>, x: int, pixelBytes: nat, r: int, row: int): int -> seq<byte> {
    c => SampledPixel(frame, x, pixelBytes, r, row, c)
  }

  /** The first count sampled pixels of source row `row`: columns 0, r, 2r, ... */
  function SampledRow(frame: seq<byte>, x: int, pixelBytes: nat, r: int, row: int, count: int): seq<byte> {
    Concat(count, RowPixels(frame, x, pixelBytes, r, row))
  }

  /** Sampled row oj: w sampled pixels of source row oj * r. */
  function Lines(frame: seq<byte>, x: int, pixelBytes: nat, r: int, w: int): int -> seq<byte> {
    oj => SampledRow(frame, x, pixelBytes, r, oj * r, w)
  }

  /** The first `rows` sampled rows, source rows 0, r, 2r, ..., each of w sampled pixels. */
  function SampledRows(frame: seq<byte>, x: int, pixelBytes: nat, r: int, w: int, rows: int): seq<byte> {
    Concat(rows, Lines(frame, x, pixelBytes, r, w))
  }

  /** The pixel array written after the header. */
  function PixelArray(frame: seq<byte>, info: ScreenInfo, resolution: nat): seq<byte> {
    var x, y := info.xresVirtual, info.yresVirtual;
    if resolution > 1 then SampledRows(frame, x, BytesPerPixel(info), resolution, x / resolution, y / resolution)
    else frame
  }

  /** n blocks of len bytes make n * len bytes. */
  lemma {:induction false} ConcatLength(n: nat, blocks: int -> seq<byte>, len: nat)
    requires forall i :: 0 <= i < n ==> |blocks(i)| == len
    ensures |Concat(n, blocks)| == n * len
  {
    if n > 0 {
      ConcatLength(n - 1, blocks, len);
      Scale(n - 1, len);
    }
  }

  /** Byte c of block j of n blocks of len bytes is byte k = j * len + c of
      their concatenation. */
  lemma {:induction false} ConcatAt(n: nat, blocks: int -> seq<byte>, len: nat, j: nat, c: nat, k: int)
    requires forall i :: 0 <= i < n ==> |blocks(i)| == len
    requires j < n && c < len && k == j * len + c
    ensures 0 <= k < |Concat(n, blocks)|
    ensures Concat(n, blocks)[k] == blocks(j)[c]
  {
    ConcatLength(n, blocks, len);
    ConcatLength(n - 1, blocks, len);
    PixelEnd(j, n, len);
    Scale(n - 1, len);
    if j < n - 1 {
      PixelEnd(j, n - 1, len);
      ConcatAt(n - 1, blocks, len, j, c, k);
    }
  }

  /** Pixel (row, col) of a frame of y rows of x pixels lies inside the frame. */
  lemma PixelInFrame(x: nat, y: nat, pixelBytes: nat, row: nat, col: nat)
    requires row < y && col < x
    ensures 0 <= PixelIndex(x, pixelBytes, row, col)
    ensures PixelIndex(x, pixelBytes, row, col) + pixelBytes <= x * y * pixelBytes
  {
    assert row * x + col + 1 <= y * x by {
      assert (y - row) * x >= x by { MulAtLeast(y - row, x); }
    }
    assert (x * y - (row * x + col + 1)) * pixelBytes >= 0;
  }

  /** Inside the frame, a pixel is the slice of the frame at its index. */
  lemma PixelAtInFrame(frame: seq<byte>, x: nat, y: nat, pixelBytes: nat, row: nat, col: nat)
    requires |frame| == x * y * pixelBytes && row < y && col < x
    ensures 0 <= PixelIndex(x, pixelBytes, row, col) && PixelIndex(x, pixelBytes, row, col) + pixelBytes <= |frame|
    ensures PixelAt(frame, x, pixelBytes, row, col)
         == frame[PixelIndex(x, pixelBytes, row, col)..PixelIndex(x, pixelBytes, row, col) + pixelBytes]
  {
    PixelInFrame(x, y, pixelBytes, row, col);
  }

  /** A sampled row one pixel longer is the shorter row followed by the next
      sampled pixel of the frame. */
  lemma SampledRowSnoc(frame: seq<byte>, x: nat, y: nat, pixelBytes: nat, r: nat, row: nat, count: nat)
    requires |frame| == x * y * pixelBytes && r >= 1 && row < y && count * r < x
    ensures 0 <= PixelIndex(x, pixelBytes, row, count * r)
         && PixelIndex(x, pixelBytes, row, count * r) + pixelBytes <= |frame|
    ensures SampledRow(frame, x, pixelBytes, r, row, count + 1)
         == SampledRow(frame, x, pixelBytes, r, row, count)
          + frame[PixelIndex(x, pixelBytes, row, count * r)..PixelIndex(x, pixelBytes, row, count * r) + pixelBytes]
  {
    PixelAtInFrame(frame, x, y, pixelBytes, row, count * r);
  }

  /** Every sampled pixel of a row of the frame is a whole pixel. */
  lemma RowPixelsLength(frame: seq<byte>, x: nat, y: nat, pixelBytes: nat, r: nat, row: nat, count: nat)
    requires |frame| == x * y * pixelBytes && r >= 1 && row < y && count * r <= x
    ensures forall c :: 0 <= c < count ==> |RowPixels(frame, x, pixelBytes, r, row)(c)| == pixelBytes
  {
    forall c | 0 <= c < count
      ensures |RowPixels(frame, x, pixelBytes, r, row)(c)| == pixelBytes
    {
      PixelEnd(c, count, r);
      PixelInFrame(x, y, pixelBytes, row, c * r);
    }
  }

  /** A sampled row of count pixels is count pixels long. */
  lemma SampledRowLength(frame: seq<byte>, x: nat, y: nat, pixelBytes: nat, r: nat, row: nat, count: nat)
    requires |frame| == x * y * pixelBytes && r >= 1 && row < y && count * r <= x
    ensures |SampledRow(frame, x, pixelBytes, r, row, count)| == count * pixelBytes
  {
    RowPixelsLength(frame, x, y, pixelBytes, r, row, count);
    ConcatLength(count, RowPixels(frame, x, pixelBytes, r, row), pixelBytes);
  }

  /** Every one of the first `rows` sampled rows is w pixels long. */
  lemma LinesLength(frame: seq<byte>, x: nat, y: nat, pixelBytes: nat, r: nat, w: nat, rows: nat)
    requires |frame| == x * y * pixelBytes && r >= 1 && w * r <= x && rows * r <= y
    ensures forall oj :: 0 <= oj < rows ==> |Lines(frame, x, pixelBytes, r, w)(oj)| == w * pixelBytes
  {
    forall oj | 0 <= oj < rows
      ensures |Lines(frame, x, pixelBytes, r, w)(oj)| == w * pixelBytes
    {
      PixelEnd(oj, rows, r);
      SampledRowLength(frame, x, y, pixelBytes, r, oj * r, w);
    }
  }

  /** `rows` sampled rows of w pixels are rows * w pixels long. */
  lemma SampledRowsLength(frame: seq<byte>, x: nat, y: nat, pixelBytes: nat, r: nat, w: nat, rows: nat)
    requires |frame| == x * y * pixelBytes && r >= 1 && w * r <= x && rows * r <= y
    ensures |SampledRows(frame, x, pixelBytes, r, w, rows)| == rows * w * pixelBytes
  {
    LinesLength(frame, x, y, pixelBytes, r, w, rows);
    ConcatLength(rows, Lines(frame, x, pixelBytes, r, w), w * pixelBytes);
    MulAssoc(rows, w, pixelBytes);
  }

  /** Sampled pixel c of a sampled row is source pixel (row, c*r). */
  lemma SampledRowAt(frame: seq<byte>, x: nat, y: nat, pixelBytes: nat, r: nat, row: nat,
                     count: nat, c: nat, b: nat)
    requires |frame| == x * y * pixelBytes && r >= 1
    requires row < y && count * r <= x
    requires c < count && b < pixelBytes
    ensures 0 <= c * pixelBytes + b < |SampledRow(frame, x, pixelBytes, r, row, count)|
    ensures 0 <= PixelIndex(x, pixelBytes, row, c * r) && PixelIndex(x, pixelBytes, row, c * r) + b < |frame|
    ensures SampledRow(frame, x, pixelBytes, r, row, count)[c * pixelBytes + b]
         == frame[PixelIndex(x, pixelBytes, row, c * r) + b]
  {
    RowPixelsLength(frame, x, y, pixelBytes, r, row, count);
    ConcatAt(count, RowPixels(frame, x, pixelBytes, r, row), pixelBytes, c, b, c * pixelBytes + b);
    PixelEnd(c, count, r);
    PixelInFrame(x, y, pixelBytes, row, c * r);
  }

  /** Output pixel (oj, oi) of `rows` sampled rows of w pixels is source
      pixel (oj*r, oi*r). */
  lemma SampledRowsAt(frame: seq<byte>, x: nat, y: nat, pixelBytes: nat, r: nat, w: nat,
                      rows: nat, oj: nat, oi: nat, b: nat)
    requires |frame| == x * y * pixelBytes && r >= 1
    requires w * r <= x && rows * r <= y
    requires oj < rows && oi < w && b < pixelBytes
    ensures 0 <= PixelIndex(w, pixelBytes, oj, oi) + b < |SampledRows(frame, x, pixelBytes, r, w, rows)|
    ensures 0 <= PixelIndex(x, pixelBytes, oj * r, oi * r) && PixelIndex(x, pixelBytes, oj * r, oi * r) + b < |frame|
    ensures SampledRows(frame, x, pixelBytes, r, w, rows)[PixelIndex(w, pixelBytes, oj, oi) + b]
         == frame[PixelIndex(x, pixelBytes, oj * r, oi * r) + b]
  {
    LinesLength(frame, x, y, pixelBytes, r, w, rows);
    PixelEnd(oj, rows, r);
    SampledRowAt(frame, x, y, pixelBytes, r, oj * r, w, oi, b);
    RowOffset(oj, w, oi, pixelBytes);
    PixelEnd(oi, w, pixelBytes);
    ConcatAt(rows, Lines(frame, x, pixelBytes, r, w), w * pixelBytes, oj, oi * pixelBytes + b,
             PixelIndex(w, pixelBytes, oj, oi) + b);
  }

  lemma RowOffset(oj: nat, w: nat, oi: nat, pixelBytes: nat)
    ensures (oj * w + oi) * pixelBytes == oj * (w * pixelBytes) + oi * pixelBytes
  {
  }

  /** For r > 1 the pixel array holds (x/r)*(y/r) pixels, each the top-left
      pixel of its r-by-r block (the remainder rows and columns are dropped). */
  lemma Decimation(frame: seq<byte>, info: ScreenInfo, resolution: nat, oj: nat, oi: nat, b: nat)
    requires |frame| == FrameSize(info) && resolution > 1
    requires oj < info.yresVirtual / resolution && oi < info.xresVirtual / resolution && b < BytesPerPixel(info)
    ensures var pixels := PixelArray(frame, info, resolution);
      var w, pb := info.xresVirtual / resolution, BytesPerPixel(info);
      var dst, src := PixelIndex(w, pb, oj, oi) + b, PixelIndex(info.xresVirtual, pb, oj * resolution, oi * resolution) + b;
      && |pixels| == (info.xresVirtual / resolution) * (info.yresVirtual / resolution) * pb
      && 0 <= dst < |pixels| && 0 <= src < |frame| && pixels[dst] == frame[src]
  {
    var x, y, pb := info.xresVirtual, info.yresVirtual, BytesPerPixel(info);
    var w, h := x / resolution, y / resolution;
    QuotientFits(x, resolution);
    QuotientFits(y, resolution);
    SampledRowsAt(frame, x, y, pb, resolution, w, h, oj, oi, b);
    SampledRowsLength(frame, x, y, pb, resolution, w, h);
  }

  /** The pixel array is exactly as long as the header declares; at
      resolution 1 it is the frame itself. */
  lemma PixelArrayLength(frame: seq<byte>, info: ScreenInfo, resolution: nat)
    requires |frame| == FrameSize(info) && resolution >= 1
    ensures |PixelArray(frame, info, resolution)| == PixelArraySize(info, resolution)
    ensures resolution == 1 ==> PixelArray(frame, info, resolution) == frame
  {
    var x, y, pb := info.xresVirtual, info.yresVirtual, BytesPerPixel(info);
    CroppedIsQuotient(x, resolution);
    CroppedIsQuotient(y, resolution);
    if resolution > 1 {
      QuotientFits(x, resolution);
      QuotientFits(y, resolution);
      var w, h := x / resolution, y / resolution;
      SampledRowsLength(frame, x, y, pb, resolution, w, h);
      MulAssoc(h, w, pb);
    }
  }

  lemma QuotientFits(n: nat, d: nat)
    requires d >= 1
    ensures (n / d) * d <= n
  {
  }

  lemma MulStrictMono(a: nat, b: nat, s: nat)
    requires s >= 1
    ensures a * s < b * s <==> a < b
  {
    if a < b {
      PixelEnd(a, b, s);
    } else {
      assert a * s >= b * s;
    }
  }

  lemma MulAssoc(a: nat, b: nat, c: nat)
    ensures a * b * c == a * (b * c) == b * a * c
  {
  }

  /** k * s is a natural number, and the next multiple is s further on. */
  lemma Scale(k: nat, s: nat)
    ensures 0 <= k * s && (k + 1) * s == k * s + s
  {
  }

  /** Row oj of the output buffer lies inside it, and the next row starts
      where it ends. */
  lemma RowStep(oj: nat, h: nat, w: nat, pb: nat)
    requires oj < h
    ensures 0 <= w * pb && 0 <= oj * w * pb
    ensures oj * w * pb + w * pb <= w * h * pb
    ensures (oj + 1) * w * pb == oj * w * pb + w * pb
  {
    PixelEnd(oj, h, w * pb);
    MulAssoc(oj, w, pb);
    MulAssoc(h, w, pb);
  }

  /** The inner decimation loop: for every r-th column of source row j, memcpy
      one pixel to the next free place of the buffer, starting at `start`. */
  method CopySampledRow(frame: array<byte>, x: nat, y: nat, pb: nat, r: nat, w: nat, cols: nat, j: nat,
                        buff: array<byte>, start: nat)
    requires frame != buff && r >= 1
    requires frame.Length == x * y * pb && j < y && cols == w * r && cols <= x
    requires start + w * pb <= buff.Length
    modifies buff
    ensures buff[..] == Overwrite(old(buff[..]), start, SampledRow(frame[..], x, pb, r, j, w))
  {
    ghost var src := frame[..];
    ghost var buff0 := buff[..];
    ghost var oi := 0;
    var i := 0;
    var buffIdx := start;
    while i < cols
      invariant oi <= w && i == oi * r && i <= cols && buffIdx == start + oi * pb
      invariant buff[..] == Overwrite(buff0, start, SampledRow(src, x, pb, r, j, oi))
      decreases w - oi
    {
      assert oi < w by { MulStrictMono(oi, w, r); }
      assert i + r <= cols by { PixelEnd(oi, w, r); }
      assert buffIdx + pb <= buff.Length by { PixelEnd(oi, w, pb); }
      var pixIdx := PixelIndex(x, pb, j, i);
      SampledRowSnoc(src, x, y, pb, r, j, oi);
      var pixel := frame[pixIdx..pixIdx + pb];
      ghost var row := SampledRow(src, x, pb, r, j, oi);
      SampledRowLength(src, x, y, pb, r, j, oi);
      Memcpy(buff, buffIdx, pixel);
      OverwriteTwice(buff0, start, row, pixel);
      Scale(oi, r);
      Scale(oi, pb);
      buffIdx := buffIdx + pb;
      i := i + r;
      oi := oi + 1;
    }
    assert oi == w by { MulStrictMono(oi, w, r); }
  }

  /** The outer decimation loop: for every r-th source row j below `lines`,
      copy its sampled row to the next free place of the buffer. */
  method CopySampledRows(frame: array<byte>, x: nat, y: nat, pb: nat, r: nat, w: nat, h: nat,
                         cols: nat, lines: nat, buff: array<byte>)
    requires frame != buff && r >= 1
    requires frame.Length == x * y * pb
    requires cols == w * r && cols <= x && lines == h * r && lines <= y
    requires buff.Length == w * h * pb
    modifies buff
    ensures buff[..] == SampledRows(frame[..], x, pb, r, w, h)
  {
    ghost var src := frame[..];
    ghost var buff0 := buff[..];
    ghost var oj := 0;
    var j := 0;
    var buffIdx := 0;
    while j < lines
      invariant oj <= h && j == oj * r && j <= lines && buffIdx == oj * w * pb
      invariant buff[..] == Overwrite(buff0, 0, SampledRows(src, x, pb, r, w, oj))
      decreases h - oj
    {
      assert oj < h by { MulStrictMono(oj, h, r); }
      assert j + r <= lines by { PixelEnd(oj, h, r); }
      RowStep(oj, h, w, pb);
      ghost var rows := SampledRows(src, x, pb, r, w, oj);
      SampledRowsLength(src, x, y, pb, r, w, oj);
      CopySampledRow(frame, x, y, pb, r, w, cols, j, buff, buffIdx);
      OverwriteTwice(buff0, 0, rows, SampledRow(src, x, pb, r, j, w));
      assert rows + SampledRow(src, x, pb, r, j, w) == SampledRows(src, x, pb, r, w, oj + 1);
      Scale(oj, r);
      buffIdx := buffIdx + w * pb;
      j := j + r;
      oj := oj + 1;
    }
    assert oj == h by { MulStrictMono(oj, h, r); }
    SampledRowsLength(src, x, y, pb, r, w, h);
    MulAssoc(h, w, pb);
    OverwriteAll(buff0, SampledRows(src, x, pb, r, w, h));
  }

  /** The decimator: a buffer of (x/r)*(y/r) pixels filled with the top-left
      pixel of every r-by-r block, row by row. */
  method Decimate(frame: array<byte>, info: ScreenInfo, resolution: nat) returns (pixels: seq<byte>)
    requires frame.Length == FrameSize(info) && resolution > 1
    ensures pixels == PixelArray(frame[..], info, resolution)
  {
    var x, y, pb := info.xresVirtual, info.yresVirtual, info.bitsPerPixel / 8;
    var buffSize := PixelArraySize(info, resolution);
    var buff := new byte[buffSize];
    var w, h := (x - x % resolution) / resolution, (y - y % resolution) / resolution;
    var cols, lines := x - x % resolution, y - y % resolution;
    assert cols == w * resolution && lines == h * resolution && w == x / resolution && h == y / resolution by {
      CroppedIsQuotient(x, resolution);
      CroppedIsQuotient(y, resolution);
    }
    CopySampledRows(frame, x, y, pb, resolution, w, h, cols, lines, buff);
    pixels := buff[..];
  }
}
