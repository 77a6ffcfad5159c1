/** The alpha normaliser: framebuffers whose colour channels leave bits over
    at the top of each pixel get that byte forced to full opacity. */
module Alpha {
  import opened Bytes
  import opened Screen

  /** Byte k of a frame of stride-byte pixels is byte off of its pixel. */
  predicate IsAlphaByte(k: nat, stride: nat, off: nat)
    requires stride > 0
  {
    k % stride == off
  }

  /** The frame with byte off of every stride-byte pixel set to 0xff. */
  function AlphaForced(frame: seq<byte>, stride: nat, off: nat): (r: seq<byte>)
    ensures |r| == |frame|
  {
    if stride == 0 then frame
    else seq(|frame|, k requires 0 <= k < |frame| => if IsAlphaByte(k, stride, off) then 0xff else frame[k])
  }

  /** The frame as the capture leaves it before encoding. */
  function Normalized(frame: seq<byte>, info: ScreenInfo): (r: seq<byte>)
    ensures |r| == |frame|
  {
    if HasAlpha(info) then AlphaForced(frame, BytesPerPixel(info), AlphaByte(info)) else frame
  }

  lemma PixelOffset(p: nat, stride: nat, b: nat)
    requires b < stride
    ensures (p * stride + b) % stride == b
  {
    var k := p * stride + b;
    var q, m := k / stride, k % stride;
    assert k == q * stride + m;
    if q < p {
      assert (p - q) * stride + b == m;
      MulAtLeast(p - q, stride);
    } else if q > p {
      assert (q - p) * stride + m == b;
      MulAtLeast(q - p, stride);
    }
  }

  /** After forcing, pixel p's alpha byte is 0xff, whatever it was. */
  lemma AlphaForcedOpaque(frame: seq<byte>, stride: nat, off: nat, p: nat)
    requires off < stride && p * stride + off < |frame|
    ensures AlphaForced(frame, stride, off)[p * stride + off] == 0xff
  {
    PixelOffset(p, stride, off);
  }

  /** Forcing touches no byte other than the alpha bytes. */
  lemma AlphaForcedKeepsColour(frame: seq<byte>, stride: nat, off: nat, p: nat, b: nat)
    requires b < stride && b != off && p * stride + b < |frame|
    ensures AlphaForced(frame, stride, off)[p * stride + b] == frame[p * stride + b]
  {
    PixelOffset(p, stride, b);
  }

  /** With spare bits above the channels, every pixel of the normalised frame is opaque. */
  lemma NormalizedOpaque(frame: seq<byte>, info: ScreenInfo, p: nat)
    requires ByteAligned(info) && HasAlpha(info) && |frame| == FrameSize(info)
    requires p < info.xresVirtual * info.yresVirtual
    ensures p * BytesPerPixel(info) + AlphaByte(info) < |frame|
    ensures Normalized(frame, info)[p * BytesPerPixel(info) + AlphaByte(info)] == 0xff
  {
    var s := BytesPerPixel(info);
    AlphaByteInPixel(info);
    PixelEnd(p, info.xresVirtual * info.yresVirtual, s);
    AlphaForcedOpaque(frame, s, AlphaByte(info), p);
  }

  /** When the channels fill the pixel, the normaliser is the identity. */
  lemma NormalizedNoAlpha(frame: seq<byte>, info: ScreenInfo)
    requires AlphaOffset(info) == info.bitsPerPixel
    ensures Normalized(frame, info) == frame
  {
  }

  /** Normalising twice is normalising once. */
  lemma NormalizedIdempotent(frame: seq<byte>, info: ScreenInfo)
    ensures Normalized(Normalized(frame, info), info) == Normalized(frame, info)
  {
    var once := Normalized(frame, info);
    var twice := Normalized(once, info);
    if HasAlpha(info) && BytesPerPixel(info) > 0 {
      forall k | 0 <= k < |frame|
        ensures twice[k] == once[k]
      {
      }
    }
  }

  /** The loop of the source forcing byte alphaOffset/8 of each pixel to 0xff,
      run only under the corrected guard. */
  method NormalizeAlpha(frame: array<byte>, info: ScreenInfo)
    requires ByteAligned(info) && frame.Length == FrameSize(info)
    modifies frame
    ensures frame[..] == Normalized(old(frame[..]), info)
  {
    var frameSize := frame.Length;
    var stride := info.bitsPerPixel / 8;
    var off := AlphaOffset(info) / 8;
    if HasAlpha(info) {
      AlphaByteInPixel(info);
      ghost var pixels := info.xresVirtual * info.yresVirtual;
      ghost var p := 0;
      var i := 0;
      while i < frameSize
        invariant 0 <= p <= pixels && i == p * stride
        invariant forall k :: 0 <= k < frameSize ==>
          frame[k] == if k < i && IsAlphaByte(k, stride, off) then 0xff else old(frame[k])
        decreases frameSize - i
      {
        PixelEnd(p, pixels, stride);
        forall k | i <= k < i + stride
          ensures IsAlphaByte(k, stride, off) <==> k == i + off
        {
          PixelOffset(p, stride, k - i);
        }
        if frame[i + off] != 0xff {
          frame[i + off] := 0xff;
        }
        i := i + stride;
        p := p + 1;
      }
      assert frame[..] == AlphaForced(old(frame[..]), stride, off);
    }
  }
}
