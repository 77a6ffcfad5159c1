/** One capture: check the pixel format, read the frame, force the alpha
    byte, create the bitmap file, write the header, then write the pixel array
    (decimated when the resolution divisor exceeds 1), and close the file. */
module Capture {
  import opened Bytes
  import opened Screen
  import opened Alpha
  import opened Header
  import opened Sampler
  import opened Output

  /** The framebuffer device as far as the capture sees it: its geometry, its
      memory, and whether read(2) of the frame fails. */
  datatype Framebuffer = Framebuffer(info: ScreenInfo, memory: seq<byte>, readFails: bool)

  datatype CaptureError = UnsupportedPixelFormat | ReadFailed | CreateFailed | WriteFailed

  datatype Status = Success | Failure(error: CaptureError)

  /** The frame that read(2) copies out of the device. */
  function Grabbed(fb: Framebuffer): (frame: seq<byte>)
    requires |fb.memory| >= FrameSize(fb.info)
    ensures |frame| == FrameSize(fb.info)
  {
    fb.memory[..FrameSize(fb.info)]
  }

  /** The pixel array that follows the header. */
  function Pixels(fb: Framebuffer, resolution: nat): seq<byte>
    requires |fb.memory| >= FrameSize(fb.info)
  {
    PixelArray(Normalized(Grabbed(fb), fb.info), fb.info, resolution)
  }

  /** The bitmap the capture means to leave in the file. */
  function Image(fb: Framebuffer, template: seq<byte>, resolution: nat): seq<byte>
    requires |fb.memory| >= FrameSize(fb.info) && |template| >= FieldsEnd && resolution >= 1
  {
    HeaderImage(template, fb.info, resolution) + Pixels(fb, resolution)
  }

  /** How a capture ends, given the device, whether the output file can be
      opened, and the results the writes will get. */
  function Expected(fb: Framebuffer, headerLen: nat, pixelsLen: nat, canOpen: bool, script: seq<int>): Status {
    if !ByteAligned(fb.info) then Failure(UnsupportedPixelFormat)
    else if fb.readFails then Failure(ReadFailed)
    else if !canOpen then Failure(CreateFailed)
    else
      var first := Drain(script, headerLen, 0);
      if !first.ok then Failure(WriteFailed)
      else if !Drain(first.rest, pixelsLen, 0).ok then Failure(WriteFailed)
      else Success
  }

  /** How many bytes of the image reach the file once it is open. */
  function WrittenLength(headerLen: nat, pixelsLen: nat, script: seq<int>): nat {
    var first := Drain(script, headerLen, 0);
    if !first.ok then first.written else headerLen + Drain(first.rest, pixelsLen, 0).written
  }

  /** A successful capture writes the whole image, and a write failure leaves
      a strict prefix of it (unless the failing write was the zero-byte write
      of an empty pixel array). */
  lemma WrittenIsImage(fb: Framebuffer, headerLen: nat, pixelsLen: nat, script: seq<int>)
    requires ByteAligned(fb.info) && !fb.readFails && headerLen > 0
    ensures WrittenLength(headerLen, pixelsLen, script) <= headerLen + pixelsLen
    ensures Expected(fb, headerLen, pixelsLen, true, script) == Success ==>
      WrittenLength(headerLen, pixelsLen, script) == headerLen + pixelsLen
    ensures Expected(fb, headerLen, pixelsLen, true, script) == Failure(WriteFailed) && pixelsLen > 0 ==>
      WrittenLength(headerLen, pixelsLen, script) < headerLen + pixelsLen
  {
    var first := Drain(script, headerLen, 0);
    if first.ok {
      var second := Drain(first.rest, pixelsLen, 0);
      assert second.written <= pixelsLen;
    }
  }

  /** With no failing write the capture of a byte-aligned, readable frame into
      a file that can be opened succeeds. */
  lemma NoErrorsSucceeds(fb: Framebuffer, headerLen: nat, pixelsLen: nat, script: seq<int>)
    requires ByteAligned(fb.info) && !fb.readFails && NoErrors(script)
    ensures Expected(fb, headerLen, pixelsLen, true, script) == Success
  {
    DrainNoErrors(script, headerLen, 0);
    var rest := Drain(script, headerLen, 0).rest;
    RestNoErrors(script, headerLen, 0);
    DrainNoErrors(rest, pixelsLen, 0);
  }

  /** The script the write-all loop leaves is a suffix of the one it got. */
  lemma {:induction false} RestNoErrors(script: seq<int>, len: nat, done: nat)
    requires done <= len && NoErrors(script)
    ensures NoErrors(Drain(script, len, done).rest)
    decreases |script|
  {
    var n := Accepted(script, len - done);
    assert NoErrors(Rest(script));
    if n >= 0 && done + n < len {
      RestNoErrors(Rest(script), len, done + n);
    }
  }

  /** The file after a successful capture: the image, followed by the tail of
      an older file that was longer, since the file is not truncated on open. */
  lemma FileAfterSuccess(before: seq<byte>, image: seq<byte>)
    ensures |before| <= |image| ==> Overwrite(before, 0, image) == image
    ensures |before| > |image| ==> Overwrite(before, 0, image) == image + before[|image|..]
  {
    OverwriteElements(before, 0, image);
    if |before| > |image| {
      assert Overwrite(before, 0, image) == image + before[|image|..];
    }
  }

  lemma PrefixOfConcat(a: seq<byte>, b: seq<byte>, n: nat)
    requires n <= |a|
    ensures (a + b)[..n] == a[..n]
  {
  }

  /** n bytes of p written right after h over a file that h was written to
      from its start: the file holds the first |h| + n bytes of h + p. */
  lemma WriteAfter(c: seq<byte>, h: seq<byte>, p: seq<byte>, mid: seq<byte>, final: seq<byte>, n: nat)
    requires n <= |p| && mid == Overwrite(c, 0, h)
    requires |h| <= |mid| && final == Overwrite(mid, |h|, p[..n])
    ensures final == Overwrite(c, 0, (h + p)[..|h| + n])
  {
    OverwriteTwice(c, 0, h, p[..n]);
    assert h + p[..n] == (h + p)[..|h| + n];
  }

  /** A 4 by 2 screen of 32-bit pixels with 8-bit red, green and blue channels. */
  const FourByTwo := ScreenInfo(4, 2, 32, 8, 8, 8)

  /** Byte b of output pixel oi of that screen sampled at resolution 2: the
      alpha byte is 0xff, the others are source pixel 2 * oi's of the top row. */
  lemma FourByTwoByte(memory: seq<byte>, oi: nat, b: nat)
    requires |memory| == 32 && oi < 2 && b < 4
    ensures var p := PixelArray(Normalized(memory, FourByTwo), FourByTwo, 2);
      4 * oi + b < |p| && p[4 * oi + b] == if b == 3 then 0xff else memory[8 * oi + b]
  {
    var frame := Normalized(memory, FourByTwo);
    Decimation(frame, FourByTwo, 2, 0, oi, b);
    assert PixelIndex(2, 4, 0, oi) + b == 4 * oi + b;
    assert PixelIndex(4, 4, 0, oi * 2) + b == 8 * oi + b;
    if b == 3 {
      NormalizedOpaque(memory, FourByTwo, 2 * oi);
    } else {
      AlphaForcedKeepsColour(memory, 4, 3, 2 * oi, b);
    }
  }

  /** Sampled at resolution 2, the pixel array is two pixels (source pixels 0
      and 2 of the top row) with their alpha bytes forced to 0xff. */
  lemma FourByTwoPixels(memory: seq<byte>)
    requires |memory| == 32
    ensures PixelArray(Normalized(memory, FourByTwo), FourByTwo, 2)
         == memory[0..3] + [0xff] + memory[8..11] + [0xff]
  {
    var p := PixelArray(Normalized(memory, FourByTwo), FourByTwo, 2);
    var want := memory[0..3] + [0xff] + memory[8..11] + [0xff];
    PixelArrayLength(Normalized(memory, FourByTwo), FourByTwo, 2);
    assert |p| == 8;
    forall k | 0 <= k < 8
      ensures p[k] == want[k]
    {
      FourByTwoByte(memory, k / 4, k % 4);
    }
  }

  /** Its header declares width 2, height -1 (one row, top-down), 32 bits per
      pixel, 8 bytes of pixels and a file of 8 bytes more than the header. */
  lemma FourByTwoHeader(template: seq<byte>)
    requires FieldsEnd <= |template| < 0x1_0000
    ensures var h := HeaderImage(template, FourByTwo, 2);
      && FromLittleEndian(h[WidthAt..WidthAt + 4]) == 2
      && SignedFromLe32(h[HeightAt..HeightAt + 4]) == -1
      && FromLittleEndian(h[BitsPerPixelAt..BitsPerPixelAt + 2]) == 32
      && FromLittleEndian(h[PixelArraySizeAt..PixelArraySizeAt + 4]) == 8
      && FromLittleEndian(h[FileSizeAt..FileSizeAt + 4]) == 8 + |template|
  {
    assert PixelArraySize(FourByTwo, 2) == 8;
    HeaderFieldValues(template, FourByTwo, 2);
  }

  /** Build the header, write it, then the pixel array (decimated when the
      resolution exceeds 1), and close the file on every path. The file holds
      the written prefix of header and pixel array from offset 0. */
  method WriteBitmap(out: OutputFile, frame: array<byte>, info: ScreenInfo, template: seq<byte>,
                     resolution: nat) returns (ok: bool)
    requires out.Valid() && out.isOpen && out.pos == 0
    requires frame.Length == FrameSize(info) && |template| >= FieldsEnd && resolution >= 1
    modifies out
    ensures out.Valid() && !out.isOpen && out.present == old(out.present)
    ensures var first := Drain(old(out.script), |template|, 0);
      ok == (first.ok && Drain(first.rest, |PixelArray(frame[..], info, resolution)|, 0).ok)
    ensures out.contents == Overwrite(old(out.contents), 0,
      (HeaderImage(template, info, resolution) + PixelArray(frame[..], info, resolution))
        [..WrittenLength(|template|, |PixelArray(frame[..], info, resolution)|, old(out.script))])
  {
    ghost var script0, contents0 := out.script, out.contents;
    ghost var pixelArray := PixelArray(frame[..], info, resolution);
    ghost var total := WrittenLength(|template|, |pixelArray|, script0);
    var header := BuildHeader(template, info, resolution);
    var n;
    ok, n := WriteAll(out, header);
    if !ok {
      out.Close();
      assert total == n;
      PrefixOfConcat(header, pixelArray, n);
      return;
    }
    var pixels: seq<byte>;
    if resolution > 1 {
      pixels := Decimate(frame, info, resolution);
    } else {
      pixels := frame[..];
    }
    ghost var afterHeader := out.contents;
    assert afterHeader == Overwrite(contents0, 0, header) && out.pos == |header| by {
      assert header[..|header|] == header;
    }
    ok, n := WriteAll(out, pixels);
    assert total == |header| + n;
    WriteAfter(contents0, header, pixels, afterHeader, out.contents, n);
    out.Close();
  }

  /** The capture. The file is left as it was when the capture stops before
      opening it; once opened, it holds the written prefix of the image over
      its old bytes and is closed on every path. The device memory stands for
      the framebuffer, which holds at least one frame whatever its format; the
      frame size is computed, and the memory read, only after the bpp gate. */
  method Grab(fb: Framebuffer, template: seq<byte>, resolution: nat, out: OutputFile) returns (status: Status)
    requires |fb.memory| >= FrameSize(fb.info) && |template| >= FieldsEnd && resolution >= 1
    requires out.Valid() && !out.isOpen
    modifies out
    ensures out.Valid() && !out.isOpen
    ensures status == Expected(fb, |template|, |Pixels(fb, resolution)|,
                               out.openable, old(out.script))
    ensures status.Failure? && status.error != WriteFailed ==>
      out.present == old(out.present) && out.contents == old(out.contents)
    ensures !(status.Failure? && status.error != WriteFailed) ==>
      (out.present &&
       out.contents == Overwrite(old(out.contents), 0,
         Image(fb, template, resolution)[..WrittenLength(|template|, |Pixels(fb, resolution)|, old(out.script))]))
    ensures status == Success ==> out.contents == Overwrite(old(out.contents), 0, Image(fb, template, resolution))
  {
    var info := fb.info;
    if info.bitsPerPixel % 8 != 0 {
      return Failure(UnsupportedPixelFormat);
    }
    var frameSize := FrameSize(info);
    var frame := new byte[frameSize];
    if fb.readFails {
      return Failure(ReadFailed);
    }
    ghost var blank := frame[..];
    Memcpy(frame, 0, fb.memory[..frameSize]);
    OverwriteAll(blank, fb.memory[..frameSize]);
    NormalizeAlpha(frame, info);
    assert frame[..] == Normalized(Grabbed(fb), info);
    assert PixelArray(frame[..], info, resolution) == Pixels(fb, resolution);
    var created := out.Open();
    if !created {
      return Failure(CreateFailed);
    }
    var ok := WriteBitmap(out, frame, info, template, resolution);
    status := if ok then Success else Failure(WriteFailed);
    WrittenIsImage(fb, |template|, |Pixels(fb, resolution)|, old(out.script));
    assert status == Success ==>
      Image(fb, template, resolution)[..WrittenLength(|template|, |Pixels(fb, resolution)|, old(out.script))]
      == Image(fb, template, resolution);
  }
}
