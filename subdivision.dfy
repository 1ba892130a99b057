/** What the two renderers compute, as functions of the pixel buffer.
    `TraceJs` follows the recursion of `trace` in the JavaScript worker,
    `TraceRust` the order in which `render` pops the rectangles it pushes, and
    `Drain` the effect of a whole work-stack. Both are then characterised
    pixel by pixel: every pixel of the traced rectangle is painted with the
    corner colour of the uniform sub-rectangle (`Leaf`) the subdivision reaches
    around it, and nothing outside the rectangle changes. */
module Subdivision {
  import opened Rects
  import opened Palette
  import opened Raster
  import opened Escape

  /** The escape-time kernel as the subdivision sees it: the image width
      (for the byte layout), the iteration cap, and the count of every pixel. */
  datatype Kernel = Kernel(width: nat, maxIterations: nat, iter: (int, int) -> nat)

  /** Counts never exceed the cap. */
  ghost predicate ValidKernel(k: Kernel)
  {
    k.width > 0 && forall x, y :: k.iter(x, y) <= k.maxIterations
  }

  /** The kernel of a render request: the count of `get_pixel_color` /
      `getPixelColor` for every pixel. */
  function KernelOf(v: View): (k: Kernel)
    requires Mappable(v)
    ensures ValidKernel(k) && k.width == v.width && k.maxIterations == v.maxIterations
  {
    var k := Kernel(v.width, v.maxIterations, (x, y) => IterAt(v, x, y));
    forall x, y ensures k.iter(x, y) <= k.maxIterations {
      IterAtBound(v, x, y);
    }
    k
  }

  /** The kernel of a request counts each pixel as the escape loop does. */
  lemma KernelCounts(v: View, x: int, y: int)
    requires Mappable(v)
    ensures KernelOf(v).iter(x, y) == IterAt(v, x, y) <= v.maxIterations
  {
    IterAtBound(v, x, y);
  }

  /** The test of the fill branch: the four corner counts are equal. */
  predicate Uniform(k: Kernel, r: Rect)
  {
    var c1 := k.iter(r.x1, r.y1);
    c1 == k.iter(r.x2, r.y1) && c1 == k.iter(r.x1, r.y2) && c1 == k.iter(r.x2, r.y2)
  }

  /** The colour a uniform rectangle is filled with: that of its corner count. */
  function CornerColour(k: Kernel, backend: Backend, r: Rect): Rgb
    requires ValidKernel(k)
  {
    Paint(backend, k.iter(r.x1, r.y1), k.maxIterations)
  }

  /** `trace(x1, y1, x2, y2)`: fill when the corners agree, otherwise, if the
      rectangle spans more than one pixel, recurse into the four quarters in
      order; a rectangle may be empty. */
  function TraceJs(k: Kernel, backend: Backend, buf: seq<Byte>, r: Rect): (out: seq<Byte>)
    requires ValidKernel(k)
    ensures |out| == |buf|
    decreases Measure(r)
  {
    if Uniform(k, r) then Fill(buf, k.width, r, CornerColour(k, backend, r))
    else if Splittable(r) then
      QuartersShrink(r, 0, 0);
      var qs := Quarters(r);
      TraceJs(k, backend, TraceJs(k, backend, TraceJs(k, backend, TraceJs(k, backend, buf, qs[0]), qs[1]), qs[2]), qs[3])
    else buf
  }

  /** One popped rectangle of `render` and everything pushed on its behalf:
      fill when the corners agree, otherwise push the non-empty quarters, which
      are then popped last first. */
  function TraceRust(k: Kernel, backend: Backend, buf: seq<Byte>, r: Rect): (out: seq<Byte>)
    requires ValidKernel(k) && !IsEmpty(r)
    ensures |out| == |buf|
    decreases Measure(r)
  {
    if Uniform(k, r) then Fill(buf, k.width, r, CornerColour(k, backend, r))
    else if Splittable(r) then
      QuartersShrink(r, 0, 0);
      MidpointsAgree(r.x1, r.x2);
      MidpointsAgree(r.y1, r.y2);
      var qs := Quarters(r);
      var mx, my := JsMid(r.x1, r.x2), JsMid(r.y1, r.y2);
      var b4 := if mx < r.x2 && my < r.y2 then TraceRust(k, backend, buf, qs[3]) else buf;
      var b3 := if my < r.y2 then TraceRust(k, backend, b4, qs[2]) else b4;
      var b2 := if mx < r.x2 then TraceRust(k, backend, b3, qs[1]) else b3;
      TraceRust(k, backend, b2, qs[0])
    else buf
  }

  predicate NoneEmpty(stack: seq<Rect>)
  {
    forall j :: 0 <= j < |stack| ==> !IsEmpty(stack[j])
  }

  /** The buffer once every rectangle of `stack` has been popped, the top
      (last) one first. */
  function Drain(k: Kernel, backend: Backend, buf: seq<Byte>, stack: seq<Rect>): (out: seq<Byte>)
    requires ValidKernel(k) && NoneEmpty(stack)
    ensures |out| == |buf|
    decreases |stack|
  {
    if stack == [] then buf
    else Drain(k, backend, TraceRust(k, backend, buf, stack[|stack| - 1]), stack[..|stack| - 1])
  }

  /** What is pushed on top is popped first. */
  lemma {:induction false} DrainAppend(k: Kernel, backend: Backend, buf: seq<Byte>, s: seq<Rect>, t: seq<Rect>)
    requires ValidKernel(k) && NoneEmpty(s) && NoneEmpty(t)
    ensures NoneEmpty(s + t)
    ensures Drain(k, backend, buf, s + t) == Drain(k, backend, Drain(k, backend, buf, t), s)
    decreases |t|
  {
    if t != [] {
      var n := |t|;
      var b := TraceRust(k, backend, buf, t[n - 1]);
      assert (s + t)[..|s + t| - 1] == s + t[..n - 1];
      assert (s + t)[|s + t| - 1] == t[n - 1];
      assert Drain(k, backend, buf, t) == Drain(k, backend, b, t[..n - 1]);
      DrainAppend(k, backend, b, s, t[..n - 1]);
    } else {
      assert s + t == s;
    }
  }

  /** Popping the top of the stack, when the source pushed something there. */
  lemma DrainPush(k: Kernel, backend: Backend, buf: seq<Byte>, s: seq<Rect>, pushed: bool, r: Rect)
    requires ValidKernel(k) && NoneEmpty(s) && (pushed ==> !IsEmpty(r))
    ensures NoneEmpty(s + (if pushed then [r] else []))
    ensures Drain(k, backend, buf, s + (if pushed then [r] else []))
         == Drain(k, backend, if pushed then TraceRust(k, backend, buf, r) else buf, s)
  {
    if pushed {
      assert (s + [r])[..|s|] == s;
    } else {
      assert s + [] == s;
    }
  }

  /** Popping up to four pushed rectangles, the last pushed first. */
  lemma DrainFour(k: Kernel, backend: Backend, buf: seq<Byte>, q0: Rect, q1: Rect, q2: Rect, q3: Rect,
                  c1: bool, c2: bool, c3: bool)
    requires ValidKernel(k) && !IsEmpty(q0)
    requires (c1 ==> !IsEmpty(q1)) && (c2 ==> !IsEmpty(q2)) && (c3 ==> !IsEmpty(q3))
    ensures var cs := [q0] + (if c1 then [q1] else []) + (if c2 then [q2] else []) + (if c3 then [q3] else []);
      && NoneEmpty(cs)
      && Drain(k, backend, buf, cs)
         == var b4 := if c3 then TraceRust(k, backend, buf, q3) else buf;
            var b3 := if c2 then TraceRust(k, backend, b4, q2) else b4;
            var b2 := if c1 then TraceRust(k, backend, b3, q1) else b3;
            TraceRust(k, backend, b2, q0)
  {
    var b4 := if c3 then TraceRust(k, backend, buf, q3) else buf;
    var p3 := [q0] + (if c1 then [q1] else []) + (if c2 then [q2] else []);
    DrainPush(k, backend, buf, p3, c3, q3);
    DrainThree(k, backend, b4, q0, q1, q2, c1, c2);
  }

  /** Popping up to three pushed rectangles, the last pushed first. */
  lemma DrainThree(k: Kernel, backend: Backend, buf: seq<Byte>, q0: Rect, q1: Rect, q2: Rect, c1: bool, c2: bool)
    requires ValidKernel(k) && !IsEmpty(q0) && (c1 ==> !IsEmpty(q1)) && (c2 ==> !IsEmpty(q2))
    ensures var cs := [q0] + (if c1 then [q1] else []) + (if c2 then [q2] else []);
      && NoneEmpty(cs)
      && Drain(k, backend, buf, cs)
         == var b3 := if c2 then TraceRust(k, backend, buf, q2) else buf;
            var b2 := if c1 then TraceRust(k, backend, b3, q1) else b3;
            TraceRust(k, backend, b2, q0)
  {
    var b3 := if c2 then TraceRust(k, backend, buf, q2) else buf;
    var b2 := if c1 then TraceRust(k, backend, b3, q1) else b3;
    var p1 := [q0];
    var p2 := p1 + (if c1 then [q1] else []);
    DrainPush(k, backend, buf, p2, c2, q2);
    DrainPush(k, backend, b3, p1, c1, q1);
    DrainPush(k, backend, b2, [], true, q0);
    assert [] + [q0] == p1;
  }

  /** Draining the children `render` pushes for a rectangle whose corners
      differ is tracing that rectangle. */
  lemma DrainChildren(k: Kernel, backend: Backend, buf: seq<Byte>, r: Rect)
    requires ValidKernel(k) && !IsEmpty(r) && !Uniform(k, r) && Splittable(r)
    ensures NoneEmpty(RustChildren(r))
    ensures Drain(k, backend, buf, RustChildren(r)) == TraceRust(k, backend, buf, r)
  {
    MidpointsAgree(r.x1, r.x2);
    MidpointsAgree(r.y1, r.y2);
    var qs := Quarters(r);
    var mx, my := JsMid(r.x1, r.x2), JsMid(r.y1, r.y2);
    RustChildrenAreQuarters(r);
    DrainFour(k, backend, buf, qs[0], qs[1], qs[2], qs[3], mx < r.x2, my < r.y2, mx < r.x2 && my < r.y2);
  }

  /** The uniform sub-rectangle the subdivision of `r` reaches around the
      pixel `(x, y)`: the quarter holding the pixel, again and again, until
      the corners agree. */
  function Leaf(k: Kernel, r: Rect, x: int, y: int): (leaf: Rect)
    requires ValidKernel(k) && Contains(r, x, y)
    ensures Contains(leaf, x, y) && SubRect(leaf, r) && Uniform(k, leaf)
    decreases Measure(r)
  {
    if Uniform(k, r) || !Splittable(r) then r
    else
      QuartersShrink(r, 0, 0);
      QuartersPartition(r, x, y);
      var q :| 0 <= q < 4 && Contains(Quarters(r)[q], x, y);
      QuadrantOf(r, x, y, q);
      Leaf(k, Quadrant(r, x, y), x, y)
  }

  /** The colour the renderers give pixel `(x, y)` of `r`. */
  function PixelColour(k: Kernel, backend: Backend, r: Rect, x: int, y: int): Rgb
    requires ValidKernel(k) && Contains(r, x, y)
  {
    CornerColour(k, backend, Leaf(k, r, x, y))
  }

  /** The leaf of a pixel in a quarter is its leaf in that quarter. */
  lemma LeafInQuarter(k: Kernel, r: Rect, x: int, y: int, q: int)
    requires ValidKernel(k) && !Uniform(k, r) && Splittable(r)
    requires 0 <= q < 4 && Contains(Quarters(r)[q], x, y)
    ensures Contains(r, x, y) && Leaf(k, r, x, y) == Leaf(k, Quarters(r)[q], x, y)
  {
    QuadrantOf(r, x, y, q);
  }

  /** `trace` byte by byte: a byte of a pixel in `r` takes the channel of the
      pixel's leaf colour, every other byte keeps its value. */
  lemma {:induction false} TraceJsAt(k: Kernel, backend: Backend, buf: seq<Byte>, r: Rect, i: int)
    requires ValidKernel(k) && 0 <= i < |buf|
    ensures TraceJs(k, backend, buf, r)[i]
         == if Contains(r, Col(i, k.width), Row(i, k.width))
            then ChannelOf(PixelColour(k, backend, r, Col(i, k.width), Row(i, k.width)), i % 4)
            else buf[i]
    decreases Measure(r)
  {
    var x, y := Col(i, k.width), Row(i, k.width);
    if !Uniform(k, r) && Splittable(r) {
      QuartersShrink(r, 0, 0);
      var qs := Quarters(r);
      var b1 := TraceJs(k, backend, buf, qs[0]);
      var b2 := TraceJs(k, backend, b1, qs[1]);
      var b3 := TraceJs(k, backend, b2, qs[2]);
      TraceJsAt(k, backend, buf, qs[0], i);
      TraceJsAt(k, backend, b1, qs[1], i);
      TraceJsAt(k, backend, b2, qs[2], i);
      TraceJsAt(k, backend, b3, qs[3], i);
      QuartersPartition(r, x, y);
      if Contains(r, x, y) {
        var q :| 0 <= q < 4 && Contains(qs[q], x, y);
        LeafInQuarter(k, r, x, y, q);
      }
    }
  }

  /** The same for one popped rectangle of `render`. */
  lemma {:induction false} TraceRustAt(k: Kernel, backend: Backend, buf: seq<Byte>, r: Rect, i: int)
    requires ValidKernel(k) && !IsEmpty(r) && 0 <= i < |buf|
    ensures TraceRust(k, backend, buf, r)[i]
         == if Contains(r, Col(i, k.width), Row(i, k.width))
            then ChannelOf(PixelColour(k, backend, r, Col(i, k.width), Row(i, k.width)), i % 4)
            else buf[i]
    decreases Measure(r)
  {
    var x, y := Col(i, k.width), Row(i, k.width);
    if !Uniform(k, r) && Splittable(r) {
      QuartersShrink(r, 0, 0);
      MidpointsAgree(r.x1, r.x2);
      MidpointsAgree(r.y1, r.y2);
      var qs := Quarters(r);
      var mx, my := JsMid(r.x1, r.x2), JsMid(r.y1, r.y2);
      var b4 := if mx < r.x2 && my < r.y2 then TraceRust(k, backend, buf, qs[3]) else buf;
      var b3 := if my < r.y2 then TraceRust(k, backend, b4, qs[2]) else b4;
      var b2 := if mx < r.x2 then TraceRust(k, backend, b3, qs[1]) else b3;
      if mx < r.x2 && my < r.y2 { TraceRustAt(k, backend, buf, qs[3], i); }
      if my < r.y2 { TraceRustAt(k, backend, b4, qs[2], i); }
      if mx < r.x2 { TraceRustAt(k, backend, b3, qs[1], i); }
      TraceRustAt(k, backend, b2, qs[0], i);
      QuartersPartition(r, x, y);
      if Contains(r, x, y) {
        var q :| 0 <= q < 4 && Contains(qs[q], x, y);
        LeafInQuarter(k, r, x, y, q);
      }
    }
  }

  /** For one colour conversion, the work-stack of `render` and the
      recursion of `trace` paint the same buffer: the order differs, but the
      quarters they visit are disjoint. */
  lemma TraversalsAgree(k: Kernel, backend: Backend, buf: seq<Byte>, r: Rect)
    requires ValidKernel(k) && !IsEmpty(r)
    ensures TraceRust(k, backend, buf, r) == TraceJs(k, backend, buf, r)
  {
    var a, b := TraceRust(k, backend, buf, r), TraceJs(k, backend, buf, r);
    forall i | 0 <= i < |buf|
      ensures a[i] == b[i]
    {
      TraceRustAt(k, backend, buf, r, i);
      TraceJsAt(k, backend, buf, r, i);
    }
  }

  /** A byte of a `width * height` image traced whole belongs to a pixel of
      the image and takes its channel of that pixel's colour. */
  lemma ImageByte(k: Kernel, height: nat, backend: Backend, buf: seq<Byte>, i: int)
    requires ValidKernel(k) && height > 0 && |buf| == k.width * height * 4 && 0 <= i < |buf|
    ensures Contains(Full(k.width, height), Col(i, k.width), Row(i, k.width))
    ensures TraceRust(k, backend, buf, Full(k.width, height))[i]
         == ChannelOf(PixelColour(k, backend, Full(k.width, height), Col(i, k.width), Row(i, k.width)), i % 4)
  {
    PixelOfByteInImage(k.width, height, i);
    TraceRustAt(k, backend, buf, Full(k.width, height), i);
  }

  /** The whole image, traced in either order: every pixel is opaque and
      carries the corner colour of a uniform sub-rectangle that contains it,
      whatever the buffer held before. */
  lemma RenderedImage(k: Kernel, height: nat, backend: Backend, buf: seq<Byte>)
    requires ValidKernel(k) && height > 0 && |buf| == k.width * height * 4
    ensures TraceRust(k, backend, buf, Full(k.width, height)) == TraceJs(k, backend, buf, Full(k.width, height))
    ensures forall i :: 0 <= i < |buf| ==>
      && Contains(Full(k.width, height), Col(i, k.width), Row(i, k.width))
      && TraceRust(k, backend, buf, Full(k.width, height))[i]
         == ChannelOf(PixelColour(k, backend, Full(k.width, height), Col(i, k.width), Row(i, k.width)), i % 4)
    ensures forall i :: 0 <= i < |buf| && i % 4 == 3 ==> TraceRust(k, backend, buf, Full(k.width, height))[i] == 255
  {
    TraversalsAgree(k, backend, buf, Full(k.width, height));
    forall i | 0 <= i < |buf|
      ensures Contains(Full(k.width, height), Col(i, k.width), Row(i, k.width))
      ensures TraceRust(k, backend, buf, Full(k.width, height))[i]
           == ChannelOf(PixelColour(k, backend, Full(k.width, height), Col(i, k.width), Row(i, k.width)), i % 4)
    {
      ImageByte(k, height, backend, buf, i);
    }
  }

  /** The two renderers: the Rust work-stack storing `as u8` channels and the
      JavaScript recursion storing through the clamped array. They paint the
      same leaves, and on every byte the JavaScript value exceeds the Rust
      value by 0 or 1. */
  lemma RenderersDifferByAtMostOne(k: Kernel, height: nat, buf: seq<Byte>)
    requires ValidKernel(k) && height > 0 && |buf| == k.width * height * 4
    ensures var rust, js := TraceRust(k, Wasm, buf, Full(k.width, height)), TraceJs(k, Js, buf, Full(k.width, height));
      && |rust| == |buf| && |js| == |buf|
      && forall i :: 0 <= i < |buf| ==> 0 <= js[i] as int - rust[i] as int <= 1
  {
    TraversalsAgree(k, Js, buf, Full(k.width, height));
    forall i | 0 <= i < |buf|
      ensures 0 <= TraceRust(k, Js, buf, Full(k.width, height))[i] as int - TraceRust(k, Wasm, buf, Full(k.width, height))[i] as int <= 1
    {
      RendererByte(k, height, buf, i);
    }
  }

  /** One byte of the two renderers' images: both carry the channel of the
      same leaf's corner count, converted by each renderer's own rule. */
  lemma RendererByte(k: Kernel, height: nat, buf: seq<Byte>, i: int)
    requires ValidKernel(k) && height > 0 && |buf| == k.width * height * 4 && 0 <= i < |buf|
    ensures 0 <= TraceRust(k, Js, buf, Full(k.width, height))[i] as int - TraceRust(k, Wasm, buf, Full(k.width, height))[i] as int <= 1
  {
    var full, x, y := Full(k.width, height), Col(i, k.width), Row(i, k.width);
    ImageByte(k, height, Wasm, buf, i);
    ImageByte(k, height, Js, buf, i);
    var leaf := Leaf(k, full, x, y);
    BackendsDifferByAtMostOne(k.iter(leaf.x1, leaf.y1), k.maxIterations);
    ChannelsDifferByAtMostOne(PixelColour(k, Wasm, full, x, y), PixelColour(k, Js, full, x, y), i % 4);
  }

  /** Colours that differ by 0 or 1 on each channel differ by 0 or 1 on
      every byte, alpha included. */
  lemma ChannelsDifferByAtMostOne(w: Rgb, j: Rgb, m: int)
    requires 0 <= j.r as int - w.r as int <= 1 && 0 <= j.g as int - w.g as int <= 1 && 0 <= j.b as int - w.b as int <= 1
    ensures 0 <= ChannelOf(j, m) as int - ChannelOf(w, m) as int <= 1
  {
  }

  /** The leaf of a pixel is uniform, lies in the image rectangle and holds
      the pixel, and the pixel is painted black exactly when the leaf's
      corner count is the cap; a pixel that is a corner of its leaf is
      painted with its own count. */
  lemma PixelColourMeaning(k: Kernel, backend: Backend, r: Rect, x: int, y: int)
    requires ValidKernel(k) && Contains(r, x, y)
    ensures var leaf := Leaf(k, r, x, y);
      && (PixelColour(k, backend, r, x, y) == Black <==> k.iter(leaf.x1, leaf.y1) == k.maxIterations)
      && ((x == leaf.x1 || x == leaf.x2) && (y == leaf.y1 || y == leaf.y2) ==>
            PixelColour(k, backend, r, x, y) == Paint(backend, k.iter(x, y), k.maxIterations))
  {
    var leaf := Leaf(k, r, x, y);
    BlackIffInterior(backend, k.iter(leaf.x1, leaf.y1), k.maxIterations);
  }

  /** A one-pixel rectangle always takes the fill branch, with the pixel's
      own colour, since its four corners are the same pixel. */
  lemma SinglePixelFills(k: Kernel, backend: Backend, buf: seq<Byte>, x: int, y: int)
    requires ValidKernel(k)
    ensures Uniform(k, Rect(x, y, x, y))
    ensures TraceJs(k, backend, buf, Rect(x, y, x, y))
         == TraceRust(k, backend, buf, Rect(x, y, x, y))
         == Fill(buf, k.width, Rect(x, y, x, y), Paint(backend, k.iter(x, y), k.maxIterations))
  {
  }

  /** The number of rectangles `render` pops for `r` and its descendants. */
  ghost function Cost(k: Kernel, r: Rect): nat
    requires ValidKernel(k) && !IsEmpty(r)
    decreases Measure(r)
  {
    if Uniform(k, r) || !Splittable(r) then 1
    else
      QuartersShrink(r, 0, 0);
      MidpointsAgree(r.x1, r.x2);
      MidpointsAgree(r.y1, r.y2);
      var qs := Quarters(r);
      var mx, my := JsMid(r.x1, r.x2), JsMid(r.y1, r.y2);
      1 + Cost(k, qs[0])
        + (if mx < r.x2 then Cost(k, qs[1]) else 0)
        + (if my < r.y2 then Cost(k, qs[2]) else 0)
        + (if mx < r.x2 && my < r.y2 then Cost(k, qs[3]) else 0)
  }

  ghost function SumCost(k: Kernel, stack: seq<Rect>): nat
    requires ValidKernel(k) && NoneEmpty(stack)
    decreases |stack|
  {
    if stack == [] then 0 else SumCost(k, stack[..|stack| - 1]) + Cost(k, stack[|stack| - 1])
  }

  lemma {:induction false} SumCostAppend(k: Kernel, s: seq<Rect>, t: seq<Rect>)
    requires ValidKernel(k) && NoneEmpty(s) && NoneEmpty(t)
    ensures NoneEmpty(s + t) && SumCost(k, s + t) == SumCost(k, s) + SumCost(k, t)
    decreases |t|
  {
    if t != [] {
      var n := |t|;
      assert (s + t)[..|s + t| - 1] == s + t[..n - 1];
      assert (s + t)[|s + t| - 1] == t[n - 1];
      SumCostAppend(k, s, t[..n - 1]);
    } else {
      assert s + t == s;
    }
  }

  lemma SumCostPush(k: Kernel, s: seq<Rect>, r: Rect)
    requires ValidKernel(k) && NoneEmpty(s) && !IsEmpty(r)
    ensures NoneEmpty(s + [r]) && SumCost(k, s + [r]) == SumCost(k, s) + Cost(k, r)
  {
    assert (s + [r])[..|s|] == s;
  }

  /** The cost of up to four pushed rectangles, one term per push. */
  lemma SumCostFour(k: Kernel, q0: Rect, q1: Rect, q2: Rect, q3: Rect, c1: bool, c2: bool, c3: bool)
    requires ValidKernel(k) && !IsEmpty(q0)
    requires (c1 ==> !IsEmpty(q1)) && (c2 ==> !IsEmpty(q2)) && (c3 ==> !IsEmpty(q3))
    ensures var cs := [q0] + (if c1 then [q1] else []) + (if c2 then [q2] else []) + (if c3 then [q3] else []);
      && NoneEmpty(cs)
      && SumCost(k, cs) == Cost(k, q0) + (if c1 then Cost(k, q1) else 0)
                         + (if c2 then Cost(k, q2) else 0) + (if c3 then Cost(k, q3) else 0)
  {
    var p3 := [q0] + (if c1 then [q1] else []) + (if c2 then [q2] else []);
    SumCostThree(k, q0, q1, q2, c1, c2);
    SumCostPushIf(k, p3, c3, q3);
  }

  lemma SumCostThree(k: Kernel, q0: Rect, q1: Rect, q2: Rect, c1: bool, c2: bool)
    requires ValidKernel(k) && !IsEmpty(q0) && (c1 ==> !IsEmpty(q1)) && (c2 ==> !IsEmpty(q2))
    ensures var cs := [q0] + (if c1 then [q1] else []) + (if c2 then [q2] else []);
      && NoneEmpty(cs)
      && SumCost(k, cs) == Cost(k, q0) + (if c1 then Cost(k, q1) else 0) + (if c2 then Cost(k, q2) else 0)
  {
    var p1 := [q0];
    var p2 := p1 + (if c1 then [q1] else []);
    SumCostPush(k, [], q0);
    assert [] + [q0] == p1;
    SumCostPushIf(k, p1, c1, q1);
    SumCostPushIf(k, p2, c2, q2);
  }

  /** Pushing `r` when the source pushes it. */
  lemma SumCostPushIf(k: Kernel, s: seq<Rect>, pushed: bool, r: Rect)
    requires ValidKernel(k) && NoneEmpty(s) && (pushed ==> !IsEmpty(r))
    ensures NoneEmpty(s + (if pushed then [r] else []))
    ensures SumCost(k, s + (if pushed then [r] else [])) == SumCost(k, s) + (if pushed then Cost(k, r) else 0)
  {
    if pushed {
      SumCostPush(k, s, r);
    } else {
      assert s + [] == s;
    }
  }

  /** The children pushed for a rectangle cost one pop less than it. */
  lemma ChildrenCost(k: Kernel, r: Rect)
    requires ValidKernel(k) && !IsEmpty(r) && !Uniform(k, r) && Splittable(r)
    ensures NoneEmpty(RustChildren(r)) && SumCost(k, RustChildren(r)) == Cost(k, r) - 1
  {
    MidpointsAgree(r.x1, r.x2);
    MidpointsAgree(r.y1, r.y2);
    var qs := Quarters(r);
    var mx, my := JsMid(r.x1, r.x2), JsMid(r.y1, r.y2);
    RustChildrenAreQuarters(r);
    SumCostFour(k, qs[0], qs[1], qs[2], qs[3], mx < r.x2, my < r.y2, mx < r.x2 && my < r.y2);
  }
}
