/** The pixel buffer: `width * height` pixels, four bytes each (RGBA), row by
    row from the top; pixel `(x, y)` starts at byte `(y * width + x) * 4`. */
module Raster {
  import opened Rects
  import opened Palette

  /** The byte at which pixel `(x, y)` starts. */
  function ByteIndex(width: int, x: int, y: int): int
  {
    (y * width + x) * 4
  }

  /** The column, row and channel byte `i` belongs to. */
  function Col(i: nat, width: nat): nat
    requires width > 0
  {
    (i / 4) % width
  }

  function Row(i: nat, width: nat): nat
    requires width > 0
  {
    (i / 4) / width
  }

  /** Channel `k` of a pixel painted `c`: red, green, blue, then an opaque alpha. */
  function ChannelOf(c: Rgb, k: int): Byte
  {
    if k == 0 then c.r else if k == 1 then c.g else if k == 2 then c.b else 255
  }

  /** A freshly allocated buffer. */
  function Zeros(n: nat): (z: seq<Byte>)
    ensures |z| == n && forall i :: 0 <= i < n ==> z[i] == 0
  {
    seq(n, _ => 0)
  }

  /** The buffer after painting rectangle `r` with `c`: the bytes of the
      pixels inside `r` take the colour and alpha 255, all others keep their value. */
  function Fill(buf: seq<Byte>, width: nat, r: Rect, c: Rgb): (out: seq<Byte>)
    requires width > 0
    ensures |out| == |buf|
  {
    seq(|buf|, i requires 0 <= i < |buf| =>
      if Contains(r, Col(i, width), Row(i, width)) then ChannelOf(c, i % 4) else buf[i])
  }

  lemma MulMonotoneInt(a: int, b: int, m: int)
    requires a <= b && m >= 0
    ensures a * m <= b * m
  {
  }

  /** Row `y` and column `x < width` are recovered from `y * width + x`. */
  lemma DivModOfPixel(width: int, x: int, y: int)
    requires 0 <= x < width && 0 <= y
    ensures (y * width + x) / width == y && (y * width + x) % width == x
  {
    var p := y * width + x;
    var q, s := p / width, p % width;
    assert p == q * width + s;
    if q < y {
      MulMonotoneInt(q + 1, y, width);
    } else if q > y {
      MulMonotoneInt(y + 1, q, width);
    }
  }

  /** The four bytes of pixel `(x, y)` are exactly the bytes whose column and
      row are `x` and `y`, and byte `ByteIndex + k` is channel `k`. */
  lemma PixelBytes(width: nat, x: int, y: int, i: nat)
    requires 0 <= x < width && 0 <= y
    ensures Col(i, width) == x && Row(i, width) == y <==> ByteIndex(width, x, y) <= i < ByteIndex(width, x, y) + 4
    ensures ByteIndex(width, x, y) <= i < ByteIndex(width, x, y) + 4 ==> i % 4 == i - ByteIndex(width, x, y)
  {
    DivModOfPixel(width, x, y);
    var p := i / 4;
    assert i == p * 4 + i % 4;
    assert p == Row(i, width) * width + Col(i, width);
  }

  /** The last byte of a pixel inside the image is inside the buffer. */
  lemma ByteIndexBound(width: nat, height: nat, x: int, y: int)
    requires 0 <= x < width && 0 <= y < height
    ensures 0 <= ByteIndex(width, x, y) && ByteIndex(width, x, y) + 3 < width * height * 4
  {
    MulMonotoneInt(y + 1, height, width);
    assert (y + 1) * width == y * width + width;
    assert height * width == width * height;
  }

  /** Byte `i` of a `width * height * 4` buffer belongs to a pixel of the image. */
  lemma PixelOfByteInImage(width: nat, height: nat, i: nat)
    requires width > 0 && i < width * height * 4
    ensures Col(i, width) < width && Row(i, width) < height
  {
    var p := i / 4;
    assert p < width * height;
  }

  /** What `fill_rect` promises, at the byte addresses the source writes:
      byte `k` of pixel `(x, y)` is channel `k` of the colour when the pixel is
      in `r`, with alpha 255, and is unchanged otherwise. */
  lemma {:induction false} FillAt(buf: seq<Byte>, width: nat, r: Rect, c: Rgb, x: int, y: int, k: int)
    requires 0 <= x < width && 0 <= y && 0 <= k < 4 && ByteIndex(width, x, y) + k < |buf|
    ensures Fill(buf, width, r, c)[ByteIndex(width, x, y) + k]
      == if Contains(r, x, y) then ChannelOf(c, k) else buf[ByteIndex(width, x, y) + k]
    ensures Contains(r, x, y) && k == 3 ==> Fill(buf, width, r, c)[ByteIndex(width, x, y) + k] == 255
  {
    ByteIndexBound(width, y + 1, x, y);
    PixelBytes(width, x, y, ByteIndex(width, x, y) + k);
  }

  /** Painting an empty rectangle writes nothing. */
  lemma FillEmpty(buf: seq<Byte>, width: nat, r: Rect, c: Rgb)
    requires width > 0 && IsEmpty(r)
    ensures Fill(buf, width, r, c) == buf
  {
  }

  /** `fill_rect` / `fillRect`: the nested row and column loops that paint
      every pixel of `r`, three colour bytes and an opaque alpha. */
  method FillRect(pixels: array<Byte>, width: nat, height: nat, r: Rect, color: Rgb)
    requires width > 0 && pixels.Length == width * height * 4 && Drawable(r, width, height)
    modifies pixels
    ensures pixels[..] == Fill(old(pixels[..]), width, r, color)
  {
    var y := r.y1;
    while y <= r.y2
      invariant r.y1 <= y && (y <= r.y2 + 1 || y == r.y1)
      invariant forall i :: 0 <= i < pixels.Length ==>
        pixels[i] == if Contains(Rect(r.x1, r.y1, r.x2, y - 1), Col(i, width), Row(i, width))
                     then ChannelOf(color, i % 4) else old(pixels[i])
    {
      var x := r.x1;
      while x <= r.x2
        invariant r.x1 <= x && (x <= r.x2 + 1 || x == r.x1)
        invariant forall i :: 0 <= i < pixels.Length ==>
          pixels[i] == if Contains(Rect(r.x1, r.y1, r.x2, y - 1), Col(i, width), Row(i, width))
                          || Contains(Rect(r.x1, y, x - 1, y), Col(i, width), Row(i, width))
                       then ChannelOf(color, i % 4) else old(pixels[i])
      {
        ByteIndexBound(width, height, x, y);
        var index := ByteIndex(width, x, y);
        pixels[index] := color.r;
        pixels[index + 1] := color.g;
        pixels[index + 2] := color.b;
        pixels[index + 3] := 255;
        forall i | 0 <= i < pixels.Length
          ensures pixels[i]
            == if Contains(Rect(r.x1, r.y1, r.x2, y - 1), Col(i, width), Row(i, width))
                  || Contains(Rect(r.x1, y, x, y), Col(i, width), Row(i, width))
               then ChannelOf(color, i % 4) else old(pixels[i])
        {
          PixelBytes(width, x, y, i);
        }
        x := x + 1;
      }
      y := y + 1;
    }
  }
}
