/**
 Row-major pixel buffers with a stride that may exceed the visible width.
 */
module Framebuffers {
  import opened Machine

  datatype PixelFormat = Bgra8 | Rgba8
  datatype Rgba = Rgba(r: u8, g: u8, b: u8, a: u8)

  /** `encode_rgba` */
  function Encode(f: PixelFormat, c: Rgba): (p: seq<u8>)
    ensures |p| == 4 && p[3] == c.a
  {
    match f
    case Bgra8 => [c.b, c.g, c.r, c.a]
    case Rgba8 => [c.r, c.g, c.b, c.a]
  }

  /**
   Which byte holds which channel: read as a little-endian word, a Bgra8 pixel is
   0xAARRGGBB and an Rgba8 pixel 0xAABBGGRR.
   */
  lemma ChannelBytes(c: Rgba)
    ensures LittleEndian(Encode(Bgra8, c)) == 0x100_0000 * c.a as int + 0x1_0000 * c.r as int + 0x100 * c.g as int + c.b as int
    ensures LittleEndian(Encode(Rgba8, c)) == 0x100_0000 * c.a as int + 0x1_0000 * c.b as int + 0x100 * c.g as int + c.r as int
  {
    Spell4(Encode(Bgra8, c));
    Spell4(Encode(Rgba8, c));
  }

  lemma Spell4(p: seq<u8>)
    requires |p| == 4
    ensures LittleEndian(p) == p[0] as int + 0x100 * p[1] as int + 0x1_0000 * p[2] as int + 0x100_0000 * p[3] as int
  {
    WordsSpell(p, 0, 0);
  }

  /** Byte offset of a pixel. */
  function Off(stride: nat, x: nat, y: nat): nat {
    y * stride + 4 * x
  }

  /** Geometry the drawing code relies on: rows hold their pixels, offsets fit u32. */
  predicate Shaped(width: nat, height: nat, stride: nat, bytes: nat) {
    4 * width <= stride && bytes == stride * height && bytes < 0x1_0000_0000
  }

  lemma OffInside(width: nat, height: nat, stride: nat, bytes: nat, x: nat, y: nat)
    requires Shaped(width, height, stride, bytes) && x < width && y < height
    ensures Off(stride, x, y) + 4 <= bytes
  {
    assert stride * height == stride * y + stride * (height - y);
    MulGrows(height - y, stride);
  }

  /** Different pixels occupy different bytes. */
  lemma OffApart(width: nat, stride: nat, x: nat, y: nat, x': nat, y': nat)
    requires 4 * width <= stride && x < width && x' < width && (x != x' || y != y')
    ensures Off(stride, x, y) + 4 <= Off(stride, x', y') || Off(stride, x', y') + 4 <= Off(stride, x, y)
  {
    if y < y' {
      MulGrows(y' - y, stride);
      assert y' * stride == y * stride + (y' - y) * stride;
    } else if y' < y {
      MulGrows(y - y', stride);
      assert y * stride == y' * stride + (y - y') * stride;
    }
  }

  /** Pixel values and padding of a buffer, as one function of the bytes. */
  ghost predicate IsPixel(width: nat, height: nat, stride: nat, b: nat) {
    exists x: nat, y: nat :: x < width && y < height && Off(stride, x, y) <= b < Off(stride, x, y) + 4
  }

  function Pixel(bytes: seq<u8>, stride: nat, x: nat, y: nat): seq<u8>
    requires Off(stride, x, y) + 4 <= |bytes|
  {
    bytes[Off(stride, x, y) .. Off(stride, x, y) + 4]
  }

  /** `(start + len).min(limit)` in u32. */
  function EndOf(start: u32, len: u32, limit: u32): u32 {
    Min((start + len) % 0x1_0000_0000, limit)
  }

  lemma EndInside(start: u32, len: u32, limit: u32)
    ensures EndOf(start, len, limit) <= limit
    ensures start + len < 0x1_0000_0000 ==> EndOf(start, len, limit) == Min(start + len, limit)
  {
  }

  /**
   Within u32 exactly the pixels of the rectangle are filled, unless it starts right of
   the screen on a visible row.
   */
  lemma FillExact(x: u32, y: u32, w: u32, h: u32, width: u32, height: u32, px: nat, py: nat)
    requires x + w < 0x1_0000_0000 && y + h < 0x1_0000_0000 && px < width && py < height
    ensures x <= px < EndOf(x, w, width) && y <= py < EndOf(y, h, height) <==> x <= px < x + w && y <= py < y + h
    ensures y < EndOf(y, h, height) && EndOf(x, w, width) < x <==> y < height && h > 0 && width < x
  {
  }

  /** Overwriting the four bytes of one pixel changes that pixel, no other, and no padding. */
  lemma Poked(before: seq<u8>, after: seq<u8>, width: nat, height: nat, stride: nat, x: nat, y: nat, pix: seq<u8>)
    requires Shaped(width, height, stride, |before|) && x < width && y < height && |pix| == 4
    requires Off(stride, x, y) + 4 <= |before| && after == Splice(before, Off(stride, x, y), pix)
    ensures forall x': nat, y': nat :: x' < width && y' < height ==>
      && Off(stride, x', y') + 4 <= |before|
      && Pixel(after, stride, x', y') == if x' == x && y' == y then pix else Pixel(before, stride, x', y')
    ensures PaddingSame(before, after, width, height, stride)
  {
    hide Off, Splice;
    forall x': nat, y': nat | x' < width && y' < height
      ensures Off(stride, x', y') + 4 <= |before|
      ensures Pixel(after, stride, x', y') == if x' == x && y' == y then pix else Pixel(before, stride, x', y')
    {
      OffInside(width, height, stride, |before|, x', y');
      if x' != x || y' != y { OffApart(width, stride, x, y, x', y'); }
    }
    forall b | 0 <= b < |before| && !IsPixel(width, height, stride, b) ensures after[b] == before[b] {
      assert !(Off(stride, x, y) <= b < Off(stride, x, y) + 4);
    }
  }

  ghost predicate PaddingSame(before: seq<u8>, after: seq<u8>, width: nat, height: nat, stride: nat) {
    |after| == |before| && forall b :: 0 <= b < |before| && !IsPixel(width, height, stride, b) ==> after[b] == before[b]
  }

  /** The first `k` pixels of a run are written, all others and the padding as at first. */
  ghost predicate RowDone(
      first: seq<u8>, now: seq<u8>, width: nat, height: nat, stride: nat, x: nat, y: nat, k: nat, pix: seq<u8>)
  {
    && |first| == |now| && PaddingSame(first, now, width, height, stride)
    && forall x': nat, y': nat :: x' < width && y' < height ==>
      && Off(stride, x', y') + 4 <= |now|
      && Pixel(now, stride, x', y') == if x <= x' < x + k && y' == y then pix else Pixel(first, stride, x', y')
  }

  lemma NoRowYet(bytes: seq<u8>, width: nat, height: nat, stride: nat, x: nat, y: nat, pix: seq<u8>)
    requires Shaped(width, height, stride, |bytes|)
    ensures RowDone(bytes, bytes, width, height, stride, x, y, 0, pix)
  {
    hide Off;
    forall x': nat, y': nat | x' < width && y' < height ensures Off(stride, x', y') + 4 <= |bytes| {
      OffInside(width, height, stride, |bytes|, x', y');
    }
  }

  lemma RowNext(
      first: seq<u8>, before: seq<u8>, after: seq<u8>,
      width: nat, height: nat, stride: nat, x: nat, y: nat, k: nat, pix: seq<u8>)
    requires Shaped(width, height, stride, |before|) && x + k < width && y < height && |pix| == 4
    requires RowDone(first, before, width, height, stride, x, y, k, pix)
    requires Off(stride, x + k, y) + 4 <= |before| && after == Splice(before, Off(stride, x + k, y), pix)
    ensures RowDone(first, after, width, height, stride, x, y, k + 1, pix)
  {
    hide Off, Pixel, Splice, IsPixel;
    Poked(before, after, width, height, stride, x + k, y, pix);
  }

  lemma SameBytes(before: seq<u8>, pixels: array<u8>, width: nat, height: nat, stride: nat)
    requires PaddingSame(before, pixels[..], width, height, stride)
    ensures forall b :: 0 <= b < pixels.Length && !IsPixel(width, height, stride, b) ==> pixels[b] == before[b]
  {
    hide IsPixel;
    forall b | 0 <= b < pixels.Length && !IsPixel(width, height, stride, b) ensures pixels[b] == before[b] {
      assert pixels[..][b] == pixels[b];
    }
  }

  class Framebuffer {
    const width: u32
    const height: u32
    const stride: u32
    const format: PixelFormat
    const pixels: array<u8>

    ghost predicate Valid() {
      Shaped(width, height, stride, pixels.Length)
    }

    constructor (width: u32, height: u32, stride: u32, format: PixelFormat)
      requires 4 * width <= stride && stride * height < 0x1_0000_0000
      ensures Valid() && fresh(pixels)
      ensures this.width == width && this.height == height && this.stride == stride && this.format == format
    {
      this.width, this.height, this.stride, this.format := width, height, stride, format;
      pixels := new u8[stride * height](_ => 0);
    }

    /** The pixel at (x, y) as stored. */
    ghost function At(x: nat, y: nat): seq<u8>
      requires Valid() && x < width && y < height
      reads pixels
    {
      OffInside(width, height, stride, pixels.Length, x, y);
      Pixel(pixels[..], stride, x, y)
    }

    /** Bytes outside every pixel are as they were. */
    twostate predicate PaddingKept()
      requires Valid()
      reads pixels
    {
      forall b :: 0 <= b < pixels.Length && !IsPixel(width, height, stride, b) ==> pixels[b] == old(pixels[b])
    }

    /** Store four bytes at an in-range pixel. */
    method Store(x: nat, y: nat, pix: seq<u8>)
      requires Valid() && x < width && y < height && |pix| == 4
      modifies pixels
      ensures PaddingKept()
      ensures forall x': nat, y': nat :: x' < width && y' < height ==>
        At(x', y') == if x' == x && y' == y then pix else old(At(x', y'))
    {
      hide Off, Pixel, IsPixel, Splice;
      OffInside(width, height, stride, pixels.Length, x, y);
      OffValue(stride, x, y);
      ghost var before := pixels[..];
      WriteBytes(pixels, y * stride + x * 4, pix);
      Poked(before, pixels[..], width, height, stride, x, y, pix);
      SameBytes(before, pixels, width, height, stride);
    }

    method PutPixel(x: nat, y: nat, c: Rgba)
      requires Valid()
      modifies pixels
      ensures PaddingKept()
      ensures forall x': nat, y': nat :: x' < width && y' < height ==>
        At(x', y') == if x' == x && y' == y then Encode(format, c) else old(At(x', y'))
    {
      if x >= width || y >= height {
        return;
      }
      Store(x, y, Encode(format, c));
    }

    method Clear(c: Rgba)
      requires Valid()
      modifies pixels
      ensures PaddingKept()
      ensures forall x: nat, y: nat :: x < width && y < height ==> At(x, y) == Encode(format, c)
    {
      hide Pixel, Off, IsPixel;
      var pix := Encode(format, c);
      for y := 0 to height
        invariant PaddingKept()
        invariant forall x': nat, y': nat :: x' < width && y' < height ==>
          At(x', y') == if y' < y then pix else old(At(x', y'))
      {
        var panics := FillRun(0, y, width, pix);
        assert !panics;
      }
    }

    /** The ends and the length of a row are computed in u32, where the length wraps if it is negative. */
    method FillRect(x: u32, y: u32, w: u32, h: u32, c: Rgba) returns (panics: bool)
      requires Valid()
      modifies pixels
      ensures panics <==> y < EndOf(y, h, height) && EndOf(x, w, width) < x
      ensures !panics ==> PaddingKept()
      ensures !panics ==> forall x': nat, y': nat :: x' < width && y' < height ==>
        At(x', y') == if x <= x' < EndOf(x, w, width) && y <= y' < EndOf(y, h, height)
                      then Encode(format, c) else old(At(x', y'))
    {
      hide Pixel, Off, IsPixel, EndOf;
      var pix := Encode(format, c);
      var xEnd, yEnd := EndOf(x, w, width), EndOf(y, h, height);
      EndInside(x, w, width);
      EndInside(y, h, height);
      var count := RowLength(x, xEnd);
      panics := false;
      var yy := y;
      while yy < yEnd
        invariant y <= yy && (yy == y || (yy <= yEnd && x <= xEnd)) && PaddingKept()
        invariant forall x': nat, y': nat :: x' < width && y' < height ==>
          At(x', y') == if x <= x' < xEnd && y <= y' < yy then pix else old(At(x', y'))
      {
        panics := FillRun(x, yy, count, pix);
        BackwardRow(stride, x, xEnd, yy, count, pixels.Length);
        if panics {
          return;
        }
        yy := yy + 1;
      }
    }

    /** `count` pixels from (x, y) on, each through a slice index that panics behind the buffer. */
    method FillRun(x: nat, y: nat, count: nat, pix: seq<u8>) returns (panics: bool)
      requires Valid() && y < height && |pix| == 4
      modifies pixels
      ensures panics <==> count > 0 && Off(stride, x, y) + 4 * count > pixels.Length
      ensures x + count <= width ==> !panics && PaddingKept()
      ensures x + count <= width ==> forall x': nat, y': nat :: x' < width && y' < height ==>
        At(x', y') == if x <= x' < x + count && y' == y then pix else old(At(x', y'))
    {
      hide Pixel, Off, IsPixel, Splice, PaddingSame;
      if x + count <= width {
        NoRowYet(pixels[..], width, height, stride, x, y, pix);
      }
      var rowStart := y * stride + x * 4;
      OffValue(stride, x, y);
      ghost var visible := x + count <= width;
      if visible && count > 0 {
        OffInside(width, height, stride, pixels.Length, x + count - 1, y);
        OffNext(stride, x, y, count - 1);
      }
      var xx := 0;
      while xx < count
        invariant 0 <= xx <= count && (xx > 0 ==> rowStart + 4 * xx <= pixels.Length)
        invariant visible ==> RowDone(old(pixels[..]), pixels[..], width, height, stride, x, y, xx, pix)
      {
        var off := rowStart + xx * 4;
        if off + 4 > pixels.Length {
          return true;
        }
        OffNext(stride, x, y, xx);
        ghost var before := pixels[..];
        WriteBytes(pixels, off, pix);
        if visible {
          RowNext(old(pixels[..]), before, pixels[..], width, height, stride, x, y, xx, pix);
        }
        xx := xx + 1;
      }
      panics := false;
      if visible {
        SameBytes(old(pixels[..]), pixels, width, height, stride);
      }
    }
  }

  /** `(x_end - x)` in u32. */
  function RowLength(x: u32, xEnd: u32): u32 {
    (xEnd - x) % 0x1_0000_0000
  }

  /** A row runs behind the buffer iff its end lies left of its start. */
  lemma BackwardRow(stride: nat, x: u32, xEnd: u32, y: nat, count: u32, bytes: nat)
    requires count == RowLength(x, xEnd) && bytes < 0x1_0000_0000
    ensures xEnd < x ==> count > 0 && Off(stride, x, y) + 4 * count > bytes
    ensures x <= xEnd ==> x + count == xEnd
  {
    if xEnd < x {
      ModUnique(xEnd - x, 0x1_0000_0000, -1, xEnd - x + 0x1_0000_0000);
    }
  }

  lemma OffNext(stride: nat, x: nat, y: nat, k: nat)
    ensures Off(stride, x + k, y) == Off(stride, x, y) + 4 * k
  {
  }

  lemma OffValue(stride: nat, x: nat, y: nat)
    ensures Off(stride, x, y) == y * stride + x * 4
  {
  }
}
