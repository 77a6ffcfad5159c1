/** The framebuffer's variable screen information (the part of
    fb_var_screeninfo the capture reads) and the sizes derived from it. */
module Screen {
  import opened Bytes

  datatype ScreenInfo = ScreenInfo(
    xresVirtual: nat,
    yresVirtual: nat,
    bitsPerPixel: nat,
    redLength: nat,
    greenLength: nat,
    blueLength: nat)

  /** The pixel-format gate: only whole-byte pixels are captured. */
  predicate ByteAligned(info: ScreenInfo) {
    info.bitsPerPixel % 8 == 0
  }

  function BytesPerPixel(info: ScreenInfo): nat {
    info.bitsPerPixel / 8
  }

  /** Size of the raw frame read from the device. */
  function FrameSize(info: ScreenInfo): nat {
    info.xresVirtual * info.yresVirtual * BytesPerPixel(info)
  }

  /** Bits used by the colour channels; the alpha byte, if any, starts here. */
  function AlphaOffset(info: ScreenInfo): nat {
    info.redLength + info.blueLength + info.greenLength
  }

  /** Index of the alpha byte within a pixel. */
  function AlphaByte(info: ScreenInfo): nat {
    AlphaOffset(info) / 8
  }

  /** The condition the source tests before forcing alpha: the colour
      channels do not account for every bit of the pixel. */
  predicate AlphaGuardAsWritten(info: ScreenInfo) {
    AlphaOffset(info) != info.bitsPerPixel
  }

  /** The corrected condition: there are bits left over above the colour
      channels, so the alpha byte lies inside the pixel. */
  predicate HasAlpha(info: ScreenInfo) {
    AlphaOffset(info) < info.bitsPerPixel
  }

  /** Under the corrected guard the alpha byte is inside every pixel. */
  lemma AlphaByteInPixel(info: ScreenInfo)
    requires ByteAligned(info) && HasAlpha(info)
    ensures AlphaByte(info) < BytesPerPixel(info)
  {
  }

  /** Under the source's guard, every byte-aligned format the corrected guard
      rejects puts the alpha byte outside its pixel. */
  lemma AsWrittenGuardLeavesPixel(info: ScreenInfo)
    requires ByteAligned(info) && AlphaGuardAsWritten(info) && !HasAlpha(info)
    ensures AlphaByte(info) >= BytesPerPixel(info)
  {
  }

  /** An 8-bit pseudocolour screen of one pixel whose channel lengths are
      8/8/8 passes the source's guard, and the byte it forces (3) lies past
      the end of the one-byte frame. */
  lemma PseudocolourWritesPastFrame()
    ensures var info := ScreenInfo(1, 1, 8, 8, 8, 8);
            ByteAligned(info) && AlphaGuardAsWritten(info) && !HasAlpha(info) &&
            FrameSize(info) == 1 && 0 + AlphaByte(info) == 3
  {
  }

  /** Width of the decimated image: whole blocks only. */
  function SampledWidth(info: ScreenInfo, resolution: nat): nat
    requires resolution >= 1
  {
    (info.xresVirtual - info.xresVirtual % resolution) / resolution
  }

  function SampledHeight(info: ScreenInfo, resolution: nat): nat
    requires resolution >= 1
  {
    (info.yresVirtual - info.yresVirtual % resolution) / resolution
  }

  /** Size of the pixel array the capture writes after the header. */
  function PixelArraySize(info: ScreenInfo, resolution: nat): nat
    requires resolution >= 1
  {
    SampledWidth(info, resolution) * SampledHeight(info, resolution) * BytesPerPixel(info)
  }

  /** Cropping the remainder before dividing changes nothing: the stored
      width and height (x/r, y/r) are the sampled dimensions. */
  lemma CroppedIsQuotient(n: nat, resolution: nat)
    requires resolution >= 1
    ensures (n - n % resolution) / resolution == n / resolution
  {
    var q, m := n / resolution, n % resolution;
    assert n - m == q * resolution;
    MulDiv(q, resolution);
  }

  lemma MulDiv(q: nat, d: nat)
    requires d >= 1
    ensures (q * d) / d == q
  {
    var p := q * d;
    var k, m := p / d, p % d;
    assert p == k * d + m && 0 <= m < d;
    if k < q {
      assert (q - k) * d == m;
      MulAtLeast(q - k, d);
    } else if k > q {
      assert (k - q) * d + m == 0;
      MulAtLeast(k - q, d);
    }
  }

  lemma DivLe(n: nat, d: nat)
    requires d >= 1
    ensures 0 <= n / d <= n
  {
  }

  /** Block p of n blocks of s bytes ends inside the n * s bytes. */
  lemma PixelEnd(p: nat, n: nat, s: nat)
    requires p < n
    ensures 0 <= p * s && p * s + s <= n * s
  {
    assert (n - p) * s >= s by { if s > 0 { MulAtLeast(n - p, s); } }
  }

  lemma MulAtLeast(a: nat, d: nat)
    requires a >= 1
    ensures a * d >= d
  {
  }

  /** At resolution 1 nothing is cropped: the pixel array is the whole frame. */
  lemma FullResolutionSize(info: ScreenInfo)
    ensures PixelArraySize(info, 1) == FrameSize(info)
  {
  }
}
