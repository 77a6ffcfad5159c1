/** Bytes, fixed-width little-endian integers, and the byte copy (memcpy)
    that the capture pipeline uses to patch and fill its buffers. */
module Bytes {

  type byte = b: int | 0 <= b < 256

  const TwoTo16: nat := 0x1_0000
  const TwoTo31: nat := 0x8000_0000
  const TwoTo32: nat := 0x1_0000_0000

  function Pow256(n: nat): (p: nat)
    ensures p >= 1
  {
    if n == 0 then 1 else 256 * Pow256(n - 1)
  }

  /** The n low-order bytes of v, least significant byte first. */
  function LittleEndian(v: nat, n: nat): (b: seq<byte>)
    ensures |b| == n
  {
    if n == 0 then [] else [v % 256] + LittleEndian(v / 256, n - 1)
  }

  /** The unsigned value of a little-endian byte string. */
  function FromLittleEndian(b: seq<byte>): (v: nat)
    ensures v < Pow256(|b|)
  {
    if |b| == 0 then 0 else b[0] + 256 * FromLittleEndian(b[1..])
  }

  /** htole16 of a value held in a wider unsigned field: the low 16 bits. */
  function Le16(v: int): (b: seq<byte>)
    ensures |b| == 2
  {
    LittleEndian(v % TwoTo16, 2)
  }

  /** htole32 of a value computed in a wider (or signed) type: the low 32 bits,
      so a negative value is stored in two's complement. */
  function Le32(v: int): (b: seq<byte>)
    ensures |b| == 4
  {
    LittleEndian(v % TwoTo32, 4)
  }

  /** A four-byte little-endian field read back as a signed 32-bit integer. */
  function SignedFromLe32(b: seq<byte>): (v: int)
    requires |b| == 4
    ensures -(TwoTo31 as int) <= v < TwoTo31
  {
    Pow256Four();
    var u := FromLittleEndian(b);
    if u < TwoTo31 then u else u - TwoTo32
  }

  lemma Pow256Four()
    ensures Pow256(2) == TwoTo16 && Pow256(4) == TwoTo32
  {
  }

  /** Encoding v in n bytes and decoding gives v back when it fits. */
  lemma {:induction false} DecodeEncode(v: nat, n: nat)
    requires v < Pow256(n)
    ensures FromLittleEndian(LittleEndian(v, n)) == v
  {
    if n > 0 {
      var b := LittleEndian(v, n);
      assert b[1..] == LittleEndian(v / 256, n - 1);
      DecodeEncode(v / 256, n - 1);
    }
  }

  /** Decoding a byte string and encoding it again in as many bytes gives it back. */
  lemma {:induction false} EncodeDecode(b: seq<byte>)
    ensures LittleEndian(FromLittleEndian(b), |b|) == b
  {
    if |b| > 0 {
      var d := FromLittleEndian(b[1..]);
      assert FromLittleEndian(b) == b[0] + 256 * d;
      assert (b[0] + 256 * d) % 256 == b[0];
      assert (b[0] + 256 * d) / 256 == d;
      EncodeDecode(b[1..]);
    }
  }

  /** A 16-bit field holds its value modulo 2^16. */
  lemma Le16Value(v: int)
    ensures FromLittleEndian(Le16(v)) == v % TwoTo16
  {
    Pow256Four();
    DecodeEncode(v % TwoTo16, 2);
  }

  /** A 32-bit field holds its value modulo 2^32. */
  lemma Le32Value(v: int)
    ensures FromLittleEndian(Le32(v)) == v % TwoTo32
  {
    Pow256Four();
    DecodeEncode(v % TwoTo32, 4);
  }

  /** A value in the signed 32-bit range (a negative height, say) reads back unchanged. */
  lemma Le32Signed(v: int)
    requires -(TwoTo31 as int) <= v < TwoTo31
    ensures SignedFromLe32(Le32(v)) == v
  {
    Le32Value(v);
  }

  /** s with the bytes from offset off on replaced by d; the result grows when d
      runs past the end of s. This is memcpy into a buffer when it fits, and a
      write(2) at a file offset in general. */
  function Overwrite(s: seq<byte>, off: nat, d: seq<byte>): (r: seq<byte>)
    requires off <= |s|
    ensures |r| == if off + |d| <= |s| then |s| else off + |d|
  {
    var n := if off + |d| <= |s| then |s| else off + |d|;
    seq(n, i => if off <= i < off + |d| then d[i - off] else if 0 <= i < |s| then s[i] else 0)
  }

  /** Byte by byte: d's bytes from off on, s's bytes elsewhere. */
  lemma OverwriteElements(s: seq<byte>, off: nat, d: seq<byte>)
    requires off <= |s|
    ensures forall i :: 0 <= i < |Overwrite(s, off, d)| ==>
      Overwrite(s, off, d)[i] == if off <= i < off + |d| then d[i - off] else s[i]
  {
  }

  /** After the write, the written range holds d. */
  lemma OverwriteSlice(s: seq<byte>, off: nat, d: seq<byte>)
    requires off + |d| <= |s|
    ensures Overwrite(s, off, d)[off..off + |d|] == d
  {
  }

  /** A range the write does not touch keeps its bytes. */
  lemma OverwriteKeepsSlice(s: seq<byte>, off: nat, d: seq<byte>, lo: nat, hi: nat)
    requires off + |d| <= |s| && lo <= hi <= |s|
    requires hi <= off || off + |d| <= lo
    ensures Overwrite(s, off, d)[lo..hi] == s[lo..hi]
  {
    OverwriteElements(s, off, d);
    assert Overwrite(s, off, d)[lo..hi] == s[lo..hi];
  }

  /** A byte the write does not touch is unchanged. */
  lemma OverwriteKeepsAt(s: seq<byte>, off: nat, d: seq<byte>, i: nat)
    requires off + |d| <= |s| && i < |s|
    requires i < off || off + |d| <= i
    ensures Overwrite(s, off, d)[i] == s[i]
  {
    OverwriteElements(s, off, d);
  }

  /** Two writes, the second starting where the first ended, are one write of both. */
  lemma OverwriteTwice(s: seq<byte>, off: nat, a: seq<byte>, b: seq<byte>)
    requires off <= |s|
    ensures off + |a| <= |Overwrite(s, off, a)|
    ensures Overwrite(Overwrite(s, off, a), off + |a|, b) == Overwrite(s, off, a + b)
  {
    var l := Overwrite(Overwrite(s, off, a), off + |a|, b);
    var r := Overwrite(s, off, a + b);
    OverwriteElements(s, off, a);
    OverwriteElements(Overwrite(s, off, a), off + |a|, b);
    OverwriteElements(s, off, a + b);
    assert |l| == |r|;
    forall i | 0 <= i < |l|
      ensures l[i] == r[i]
    {
    }
  }

  /** Writing from offset 0 something at least as long as s leaves exactly that. */
  lemma OverwriteAll(s: seq<byte>, d: seq<byte>)
    requires |s| <= |d|
    ensures Overwrite(s, 0, d) == d
  {
    OverwriteElements(s, 0, d);
  }

  /** memcpy(&dst[off], src, |src|). */
  method Memcpy(dst: array<byte>, off: nat, src: seq<byte>)
    requires off + |src| <= dst.Length
    modifies dst
    ensures dst[..] == Overwrite(old(dst[..]), off, src)
  {
    for k := 0 to |src|
      invariant forall i :: 0 <= i < dst.Length ==>
        dst[i] == if off <= i < off + k then src[i - off] else old(dst[i])
    {
      dst[off + k] := src[k];
    }
    OverwriteElements(old(dst[..]), off, src);
  }
}
