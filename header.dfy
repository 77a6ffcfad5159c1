/** The BMP header: a template copied verbatim with five little-endian
    fields patched from the screen geometry and the resolution divisor. */
module Header {
  import opened Bytes
  import opened Screen

  const FileSizeAt: nat := 0x02
  const WidthAt: nat := 0x12
  const HeightAt: nat := 0x16
  const BitsPerPixelAt: nat := 0x1C
  const PixelArraySizeAt: nat := 0x22
  /** The template must reach past the last patched field. */
  const FieldsEnd: nat := 0x26

  /** Bytes of the header that the builder patches. */
  predicate IsPatched(i: nat) {
    FileSizeAt <= i < FileSizeAt + 4 || WidthAt <= i < HeightAt + 4 ||
    BitsPerPixelAt <= i < BitsPerPixelAt + 2 || PixelArraySizeAt <= i < PixelArraySizeAt + 4
  }

  /** The header as the source builds it. */
  function HeaderImage(template: seq<byte>, info: ScreenInfo, resolution: nat): (h: seq<byte>)
    requires |template| >= FieldsEnd && resolution >= 1
    ensures |h| == |template|
  {
    var h0 := Overwrite(template, FileSizeAt, Le32(PixelArraySize(info, resolution) + |template|));
    var h1 := Overwrite(h0, WidthAt, Le32(info.xresVirtual / resolution));
    var h2 := Overwrite(h1, HeightAt, Le32(-(info.yresVirtual / resolution)));
    var h3 := Overwrite(h2, BitsPerPixelAt, Le16(info.bitsPerPixel));
    Overwrite(h3, PixelArraySizeAt, Le32(PixelArraySize(info, resolution)))
  }

  /** Each field holds the little-endian encoding of its value. */
  lemma HeaderFields(template: seq<byte>, info: ScreenInfo, resolution: nat)
    requires |template| >= FieldsEnd && resolution >= 1
    ensures var h := HeaderImage(template, info, resolution);
      && h[FileSizeAt..FileSizeAt + 4] == Le32(PixelArraySize(info, resolution) + |template|)
      && h[WidthAt..WidthAt + 4] == Le32(info.xresVirtual / resolution)
      && h[HeightAt..HeightAt + 4] == Le32(-(info.yresVirtual / resolution))
      && h[BitsPerPixelAt..BitsPerPixelAt + 2] == Le16(info.bitsPerPixel)
      && h[PixelArraySizeAt..PixelArraySizeAt + 4] == Le32(PixelArraySize(info, resolution))
  {
    var d0 := Le32(PixelArraySize(info, resolution) + |template|);
    var d1 := Le32(info.xresVirtual / resolution);
    var d2 := Le32(-(info.yresVirtual / resolution));
    var d3 := Le16(info.bitsPerPixel);
    var d4 := Le32(PixelArraySize(info, resolution));
    var h0 := Overwrite(template, FileSizeAt, d0);
    var h1 := Overwrite(h0, WidthAt, d1);
    var h2 := Overwrite(h1, HeightAt, d2);
    var h3 := Overwrite(h2, BitsPerPixelAt, d3);
    var h4 := Overwrite(h3, PixelArraySizeAt, d4);
    assert h4[FileSizeAt..FileSizeAt + 4] == d0 by {
      OverwriteSlice(template, FileSizeAt, d0);
      OverwriteKeepsSlice(h0, WidthAt, d1, FileSizeAt, FileSizeAt + 4);
      OverwriteKeepsSlice(h1, HeightAt, d2, FileSizeAt, FileSizeAt + 4);
      OverwriteKeepsSlice(h2, BitsPerPixelAt, d3, FileSizeAt, FileSizeAt + 4);
      OverwriteKeepsSlice(h3, PixelArraySizeAt, d4, FileSizeAt, FileSizeAt + 4);
    }
    assert h4[WidthAt..WidthAt + 4] == d1 by {
      OverwriteSlice(h0, WidthAt, d1);
      OverwriteKeepsSlice(h1, HeightAt, d2, WidthAt, WidthAt + 4);
      OverwriteKeepsSlice(h2, BitsPerPixelAt, d3, WidthAt, WidthAt + 4);
      OverwriteKeepsSlice(h3, PixelArraySizeAt, d4, WidthAt, WidthAt + 4);
    }
    assert h4[HeightAt..HeightAt + 4] == d2 by {
      OverwriteSlice(h1, HeightAt, d2);
      OverwriteKeepsSlice(h2, BitsPerPixelAt, d3, HeightAt, HeightAt + 4);
      OverwriteKeepsSlice(h3, PixelArraySizeAt, d4, HeightAt, HeightAt + 4);
    }
    assert h4[BitsPerPixelAt..BitsPerPixelAt + 2] == d3 by {
      OverwriteSlice(h2, BitsPerPixelAt, d3);
      OverwriteKeepsSlice(h3, PixelArraySizeAt, d4, BitsPerPixelAt, BitsPerPixelAt + 2);
    }
    OverwriteSlice(h3, PixelArraySizeAt, d4);
  }

  /** Every byte outside the five fields is the template's. */
  lemma HeaderKeepsTemplate(template: seq<byte>, info: ScreenInfo, resolution: nat)
    requires |template| >= FieldsEnd && resolution >= 1
    ensures var h := HeaderImage(template, info, resolution);
      forall i :: 0 <= i < |h| && !IsPatched(i) ==> h[i] == template[i]
  {
    var h0 := Overwrite(template, FileSizeAt, Le32(PixelArraySize(info, resolution) + |template|));
    var h1 := Overwrite(h0, WidthAt, Le32(info.xresVirtual / resolution));
    var h2 := Overwrite(h1, HeightAt, Le32(-(info.yresVirtual / resolution)));
    var h3 := Overwrite(h2, BitsPerPixelAt, Le16(info.bitsPerPixel));
    var h4 := Overwrite(h3, PixelArraySizeAt, Le32(PixelArraySize(info, resolution)));
    forall i | 0 <= i < |h4| && !IsPatched(i)
      ensures h4[i] == template[i]
    {
      OverwriteKeepsAt(template, FileSizeAt, Le32(PixelArraySize(info, resolution) + |template|), i);
      OverwriteKeepsAt(h0, WidthAt, Le32(info.xresVirtual / resolution), i);
      OverwriteKeepsAt(h1, HeightAt, Le32(-(info.yresVirtual / resolution)), i);
      OverwriteKeepsAt(h2, BitsPerPixelAt, Le16(info.bitsPerPixel), i);
      OverwriteKeepsAt(h3, PixelArraySizeAt, Le32(PixelArraySize(info, resolution)), i);
    }
  }

  /** The fields read back as the source's values: the file and pixel-array
      sizes and the width modulo 2^32, the height as a negative 32-bit count of
      rows (top-down), and the bits per pixel modulo 2^16. */
  lemma HeaderFieldValues(template: seq<byte>, info: ScreenInfo, resolution: nat)
    requires |template| >= FieldsEnd && resolution >= 1
    requires info.yresVirtual / resolution <= TwoTo31
    ensures var h := HeaderImage(template, info, resolution);
      && FromLittleEndian(h[FileSizeAt..FileSizeAt + 4]) == (PixelArraySize(info, resolution) + |template|) % TwoTo32
      && FromLittleEndian(h[WidthAt..WidthAt + 4]) == (info.xresVirtual / resolution) % TwoTo32
      && SignedFromLe32(h[HeightAt..HeightAt + 4]) == -(info.yresVirtual / resolution)
      && FromLittleEndian(h[BitsPerPixelAt..BitsPerPixelAt + 2]) == info.bitsPerPixel % TwoTo16
      && FromLittleEndian(h[PixelArraySizeAt..PixelArraySizeAt + 4]) == PixelArraySize(info, resolution) % TwoTo32
  {
    HeaderFields(template, info, resolution);
    Le32Value(PixelArraySize(info, resolution) + |template|);
    Le32Value(info.xresVirtual / resolution);
    Le32Signed(-(info.yresVirtual / resolution));
    Le16Value(info.bitsPerPixel);
    Le32Value(PixelArraySize(info, resolution));
  }

  /** The header is self-consistent: the declared file size is the declared
      pixel-array size plus the header length, and the pixel-array size is the
      declared width times the number of rows times the bytes per pixel. */
  lemma HeaderConsistent(template: seq<byte>, info: ScreenInfo, resolution: nat)
    requires |template| >= FieldsEnd && resolution >= 1
    requires info.xresVirtual < TwoTo32 && info.yresVirtual < TwoTo31 && info.bitsPerPixel < TwoTo16
    requires PixelArraySize(info, resolution) + |template| < TwoTo32
    ensures var h := HeaderImage(template, info, resolution);
      var size := FromLittleEndian(h[PixelArraySizeAt..PixelArraySizeAt + 4]);
      && FromLittleEndian(h[FileSizeAt..FileSizeAt + 4]) == size + |h|
      && size == FromLittleEndian(h[WidthAt..WidthAt + 4]) * -SignedFromLe32(h[HeightAt..HeightAt + 4])
                 * (FromLittleEndian(h[BitsPerPixelAt..BitsPerPixelAt + 2]) / 8)
  {
    DivLe(info.yresVirtual, resolution);
    HeaderFieldValues(template, info, resolution);
    SizesAgree(info, resolution);
    FieldsAgree(HeaderImage(template, info, resolution), PixelArraySize(info, resolution),
                info.xresVirtual / resolution, info.yresVirtual / resolution, info.bitsPerPixel);
  }

  /** The pixel-array size is the product of the uncropped quotients, and the
      width fits its 32-bit field. */
  lemma SizesAgree(info: ScreenInfo, resolution: nat)
    requires resolution >= 1 && info.xresVirtual < TwoTo32
    ensures PixelArraySize(info, resolution)
         == (info.xresVirtual / resolution) * (info.yresVirtual / resolution) * (info.bitsPerPixel / 8)
    ensures 0 <= info.xresVirtual / resolution < TwoTo32
  {
    CroppedIsQuotient(info.xresVirtual, resolution);
    CroppedIsQuotient(info.yresVirtual, resolution);
    DivLe(info.xresVirtual, resolution);
  }

  /** Fields that hold their values exactly, read back from any header. */
  lemma FieldsAgree(h: seq<byte>, size: nat, w: nat, rows: nat, bpp: nat)
    requires |h| >= FieldsEnd
    requires FromLittleEndian(h[FileSizeAt..FileSizeAt + 4]) == (size + |h|) % TwoTo32
    requires FromLittleEndian(h[WidthAt..WidthAt + 4]) == w % TwoTo32
    requires SignedFromLe32(h[HeightAt..HeightAt + 4]) == -(rows as int)
    requires FromLittleEndian(h[BitsPerPixelAt..BitsPerPixelAt + 2]) == bpp % TwoTo16
    requires FromLittleEndian(h[PixelArraySizeAt..PixelArraySizeAt + 4]) == size % TwoTo32
    requires size + |h| < TwoTo32 && w < TwoTo32 && bpp < TwoTo16
    requires size == w * rows * (bpp / 8)
    ensures var size := FromLittleEndian(h[PixelArraySizeAt..PixelArraySizeAt + 4]);
      && FromLittleEndian(h[FileSizeAt..FileSizeAt + 4]) == size + |h|
      && size == FromLittleEndian(h[WidthAt..WidthAt + 4]) * -SignedFromLe32(h[HeightAt..HeightAt + 4])
                 * (FromLittleEndian(h[BitsPerPixelAt..BitsPerPixelAt + 2]) / 8)
  {
    SmallMod(size, TwoTo32);
    SmallMod(size + |h|, TwoTo32);
    SmallMod(w, TwoTo32);
    SmallMod(bpp, TwoTo16);
  }

  lemma SmallMod(v: nat, m: nat)
    requires v < m
    ensures v % m == v
  {
  }

  /** Copy the template and patch the five fields (memcpy at fixed offsets). */
  method BuildHeader(template: seq<byte>, info: ScreenInfo, resolution: nat) returns (header: seq<byte>)
    requires |template| >= FieldsEnd && resolution >= 1
    ensures header == HeaderImage(template, info, resolution)
  {
    var h := new byte[|template|];
    ghost var blank := h[..];
    Memcpy(h, 0, template);
    OverwriteAll(blank, template);
    var x := info.xresVirtual;
    var y := info.yresVirtual;
    var bpp := info.bitsPerPixel;
    var size := PixelArraySize(info, resolution);
    Memcpy(h, FileSizeAt, Le32(size + |template|));
    Memcpy(h, WidthAt, Le32(x / resolution));
    Memcpy(h, HeightAt, Le32(-(y / resolution)));
    Memcpy(h, BitsPerPixelAt, Le16(bpp));
    Memcpy(h, PixelArraySizeAt, Le32(size));
    header := h[..];
  }
}
