/** A worked request showing that the subdivision trusts the four corners of
    a rectangle: there is no minimum depth before a fill. For a 100 x 100
    image of the whole set (centre 0, scale 4, bailout radius 4, cap 1500)
    all four image corners escape after two steps, so the first rectangle is
    filled with one exterior colour, although the centre pixel is interior. */
module Scenario {
  import opened Rects
  import opened Palette
  import opened Raster
  import opened Escape
  import opened Subdivision

  /** The request: 100 x 100 pixels, centre 0, scale 4, cap 1500, `bailoutSq` 16. */
  const Demo: View := View(100, 100, 0.0, 0.0, 4.0, 1500, 16.0)

  /** A point outside the cardioid and the bulb that is inside the bailout
      circle after one step and outside it after two gets the count 2. */
  lemma EscapesAtTwo(c: Complex, maxIterations: nat, bailoutSq: real)
    requires maxIterations >= 2 && bailoutSq >= 0.0 && !InCardioidOrBulb(c)
    requires Mag2(c) <= bailoutSq && Mag2(Step(c, c)) > bailoutSq
    ensures IterationCount(c, maxIterations, bailoutSq) == 2
  {
    var zero := Complex(0.0, 0.0);
    assert EscapeFrom(c, Step(c, c), 2, maxIterations, bailoutSq) == 2;
    assert EscapeFrom(c, c, 1, maxIterations, bailoutSq) == 2;
    assert Mag2(zero) <= bailoutSq && Step(c, zero) == c;
    assert EscapeFrom(c, zero, 0, maxIterations, bailoutSq) == 2;
  }

  /** The corner `(x, y)` of the image maps to `(cx, cy)` and escapes after two steps. */
  lemma CornerEscapes(x: int, y: int, cx: real, cy: real)
    requires x == 0 || x == 99
    requires y == 0 || y == 99
    requires cx == (if x == 0 then -2.0 else 1.96) && cy == (if y == 0 then -2.0 else 1.96)
    ensures PlanePoint(Demo, x, y) == Complex(cx, cy)
    ensures IterAt(Demo, x, y) == 2
  {
    PlanePointParts(Demo, x, y, 1.0, cx, cy);
    var c := Complex(cx, cy);
    var z2 := Step(c, c);
    assert z2 == Complex(cx * cx - cy * cy + cx, 2.0 * cx * cy + cy);
    assert Mag2(z2) > 16.0;
    EscapesAtTwo(c, 1500, 16.0);
  }

  /** All four image corners get the count 2, so the whole image is one
      uniform rectangle: each renderer paints every pixel with its own colour
      for count 2, which is not black, while the centre pixel `(50, 50)` maps to
      `c = 0` and has the cap 1500 as its count. */
  lemma WholeImageFlat(backend: Backend, buf: seq<Byte>)
    requires |buf| == 100 * 100 * 4
    ensures var k := KernelOf(Demo);
      && Uniform(k, Full(100, 100))
      && TraceRust(k, backend, buf, Full(100, 100)) == Fill(buf, 100, Full(100, 100), Paint(backend, 2, 1500))
      && TraceJs(k, backend, buf, Full(100, 100)) == Fill(buf, 100, Full(100, 100), Paint(backend, 2, 1500))
    ensures IterAt(Demo, 50, 50) == 1500
    ensures Paint(backend, 2, 1500) != Black
  {
    var k := KernelOf(Demo);
    CornerEscapes(0, 0, -2.0, -2.0);
    CornerEscapes(99, 0, 1.96, -2.0);
    CornerEscapes(0, 99, -2.0, 1.96);
    CornerEscapes(99, 99, 1.96, 1.96);
    assert Uniform(k, Full(100, 100));
    CentreIsInterior();
    BlackIffInterior(backend, 2, 1500);
  }

  /** The centre pixel maps to `c = 0`, whose count is the cap. */
  lemma CentreIsInterior()
    ensures IterAt(Demo, 50, 50) == 1500
  {
    CentrePixel(Demo);
    OriginIsInterior(1500, 16.0);
  }

  /** The count 2 of a cap of 1500 has hue 0.48, in the first sector, so its
      red channel is `(0.72 + 0.18) * 255 = 229.5`: Rust's cast stores 229
      and the clamped array rounds the tie to the even 230. */
  lemma RedOfCountTwo()
    ensures HsvScaled(Hue(2, 1500), Saturation, Value).r == 229.5
    ensures Paint(Wasm, 2, 1500).r == 229 && Paint(Js, 2, 1500).r == 230
  {
    var h := Hue(2, 1500);
    assert Trunc(0.48 / 360.0) == 0;
    assert h == 0.48;
    assert Sector(h) == 0;
  }

  /** The two renderers do not store the same bytes: for this request every
      red byte is 229 in the image of `render` and 230 in the image of the
      worker, the largest gap `RenderersDifferByAtMostOne` allows. */
  lemma RenderersDifferOnDemo(buf: seq<Byte>, i: int)
    requires |buf| == 100 * 100 * 4 && 0 <= i < |buf| && i % 4 == 0
    ensures TraceRust(KernelOf(Demo), Wasm, buf, Full(100, 100))[i] == 229
    ensures TraceJs(KernelOf(Demo), Js, buf, Full(100, 100))[i] == 230
  {
    WholeImageFlat(Wasm, buf);
    WholeImageFlat(Js, buf);
    RedOfCountTwo();
    FlatRedByte(buf, Paint(Wasm, 2, 1500), i);
    FlatRedByte(buf, Paint(Js, 2, 1500), i);
  }

  /** Every red byte of the whole 100 x 100 image filled with `c` is `c.r`. */
  lemma FlatRedByte(buf: seq<Byte>, c: Rgb, i: int)
    requires |buf| == 100 * 100 * 4 && 0 <= i < |buf| && i % 4 == 0
    ensures Fill(buf, 100, Full(100, 100), c)[i] == c.r
  {
    PixelOfByteInImage(100, 100, i);
  }
}
