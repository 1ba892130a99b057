/** The Rust renderer: `BoundaryTracer`, which walks a work-stack of pixel
    rectangles over a memoised escape count, and the exported `render`. */
module Tracer {
  import opened Rects
  import opened Palette
  import opened Raster
  import opened Escape
  import opened Subdivision

  /** The largest `u32`. */
  const U32Max: int := 0xFFFF_FFFF

  class BoundaryTracer {
    const width: nat
    const height: nat
    const centerX: real
    const centerY: real
    const scale: real
    const maxIterations: nat
    const bailoutSq: real
    const aspect: real
    const pixels: array<Byte>
    /** `color_cache`: pixel to iteration count. */
    var colorCache: map<(nat, nat), nat>
    /** The count of every pixel, as the subdivision sees it. */
    ghost const kernel: Kernel

    /** The render request the tracer was built for. */
    function Request(): View
    {
      View(width, height, centerX, centerY, scale, maxIterations, bailoutSq)
    }

    /** The buffer has one RGBA quadruple per pixel, the aspect is
        `width / height`, the kernel holds the count of every pixel, and
        every cached count is the pixel's count, which is at most the cap. */
    ghost predicate Valid()
      reads this
    {
      && width > 0 && height > 0
      && width * height * 4 <= U32Max
      && aspect == width as real / height as real
      && pixels.Length == width * height * 4
      && kernel == KernelOf(Request())
      && (forall p :: p in colorCache ==> colorCache[p] <= maxIterations)
      && forall p :: p in colorCache ==> colorCache[p] == IterAt(Request(), p.0, p.1)
    }

    /** `BoundaryTracer::new`: a zeroed `width * height * 4` buffer and an
        empty cache. `width - 1` and `height - 1` are taken on `u32` by
        `render`, and the buffer length on `u32` here, hence the bounds. */
    constructor (width: nat, height: nat, centerX: real, centerY: real, scale: real,
                 maxIterations: nat, bailoutSq: real)
      requires width > 0 && height > 0 && width * height * 4 <= U32Max
      ensures Valid() && fresh(pixels)
      ensures Request() == View(width, height, centerX, centerY, scale, maxIterations, bailoutSq)
      ensures pixels[..] == Zeros(width * height * 4) && colorCache == map[]
      ensures kernel == KernelOf(Request())
    {
      this.width := width;
      this.height := height;
      this.centerX := centerX;
      this.centerY := centerY;
      this.scale := scale;
      this.maxIterations := maxIterations;
      this.bailoutSq := bailoutSq;
      aspect := width as real / height as real;
      pixels := new Byte[width * height * 4](_ => 0);
      colorCache := map[];
      kernel := KernelOf(View(width, height, centerX, centerY, scale, maxIterations, bailoutSq));
    }

    /** `get_pixel_color`: the cached count if there is one, otherwise the
        count computed and stored. A cached value is never replaced. */
    method GetPixelColor(x: nat, y: nat) returns (iteration: nat)
      requires Valid()
      modifies this`colorCache
      ensures Valid()
      ensures iteration == kernel.iter(x, y) && iteration <= maxIterations
      ensures colorCache == old(colorCache)[(x, y) := iteration]
      ensures (x, y) in old(colorCache) ==> colorCache == old(colorCache)
    {
      KernelCounts(Request(), x, y);
      if (x, y) in colorCache {
        return colorCache[(x, y)];
      }
      iteration := PixelCount(Request(), aspect, x, y);
      colorCache := colorCache[(x, y) := iteration];
    }

    /** `render`: pop a rectangle and handle it until the work-stack is
        empty. The buffer ends as the subdivision of the whole image
        prescribes; the stack only ever holds non-empty rectangles inside the
        image, and the number of pops still to come shrinks with every turn. */
    method Render() returns (image: seq<Byte>)
      requires Valid()
      modifies this`colorCache, pixels
      ensures Valid()
      ensures image == pixels[..]
      ensures image == TraceRust(kernel, Wasm, old(pixels[..]), Full(width, height))
    {
      ghost var start := pixels[..];
      var rectStack := [Full(width, height)];
      while |rectStack| > 0
        invariant Valid()
        invariant forall j :: 0 <= j < |rectStack| ==> InImage(rectStack[j], width, height)
        invariant NoneEmpty(rectStack)
        invariant Drain(kernel, Wasm, pixels[..], rectStack) == TraceRust(kernel, Wasm, start, Full(width, height))
        decreases SumCost(kernel, rectStack)
      {
        rectStack := HandleTop(rectStack);
      }
      image := pixels[..];
    }

    /** The four corner evaluations of `render`, top-left first: the
        top-left count, and whether all four counts agree. */
    method Corners(r: Rect) returns (c1: nat, uniform: bool)
      requires Valid() && InImage(r, width, height)
      modifies this`colorCache
      ensures Valid()
      ensures c1 == kernel.iter(r.x1, r.y1) && c1 <= maxIterations
      ensures uniform <==> Uniform(kernel, r)
    {
      c1 := GetPixelColor(r.x1, r.y1);
      var c2 := GetPixelColor(r.x2, r.y1);
      var c3 := GetPixelColor(r.x1, r.y2);
      var c4 := GetPixelColor(r.x2, r.y2);
      uniform := c1 == c2 && c1 == c3 && c1 == c4;
    }

    /** One turn of the loop of `render`: pop the top rectangle, evaluate its
        corners, fill it when they agree, otherwise push its non-empty
        quarters. Draining the new stack gives the same buffer as draining
        the old one, with one pop fewer to come. */
    method HandleTop(stack: seq<Rect>) returns (rectStack: seq<Rect>)
      requires Valid() && |stack| > 0 && NoneEmpty(stack)
      requires forall j :: 0 <= j < |stack| ==> InImage(stack[j], width, height)
      modifies this`colorCache, pixels
      ensures Valid() && NoneEmpty(rectStack)
      ensures forall j :: 0 <= j < |rectStack| ==> InImage(rectStack[j], width, height)
      ensures Drain(kernel, Wasm, pixels[..], rectStack) == Drain(kernel, Wasm, old(pixels[..]), stack)
      ensures SumCost(kernel, rectStack) == SumCost(kernel, stack) - 1
    {
      ghost var before := pixels[..];
      var r := stack[|stack| - 1];
      rectStack := stack[..|stack| - 1];
      ghost var rest := rectStack;
      assert stack == rest + [r];
      SumCostPush(kernel, rest, r);
      DrainPush(kernel, Wasm, before, rest, true, r);
      var c1, uniform := Corners(r);
      if uniform {
        var color := ColorComponents(c1, maxIterations);
        FillRect(pixels, width, height, r, color);
        TraceRustFills(kernel, before, r, c1);
      } else if r.x2 > r.x1 || r.y2 > r.y1 {
        rectStack := PushQuarters(rectStack, r);
        PushedChildren(kernel, height, before, rest, r, rectStack);
      }
    }
  }

  /** The exported `render`: build a tracer for the request and run it. The
      image has one opaque RGBA quadruple per pixel and is the one the
      recursive subdivision paints with the same `as u8` colours
      (`RenderedImage` says what colour each pixel gets). */
  method Render(width: nat, height: nat, centerX: real, centerY: real, scale: real,
                maxIterations: nat, bailoutSq: real) returns (image: seq<Byte>)
    requires width > 0 && height > 0 && width * height * 4 <= U32Max
    ensures var k := KernelOf(View(width, height, centerX, centerY, scale, maxIterations, bailoutSq));
      && |image| == width * height * 4
      && image == TraceRust(k, Wasm, Zeros(width * height * 4), Full(width, height))
      && image == TraceJs(k, Wasm, Zeros(width * height * 4), Full(width, height))
      && forall i :: 0 <= i < |image| && i % 4 == 3 ==> image[i] == 255
  {
    var renderer := new BoundaryTracer(width, height, centerX, centerY, scale, maxIterations, bailoutSq);
    image := renderer.Render();
    RenderedImage(renderer.kernel, height, Wasm, Zeros(width * height * 4));
  }

  /** A popped rectangle whose corners share the count `c` is filled with
      the colour of `c`. */
  lemma TraceRustFills(k: Kernel, buf: seq<Byte>, r: Rect, c: nat)
    requires ValidKernel(k) && !IsEmpty(r) && Uniform(k, r) && c == k.iter(r.x1, r.y1)
    ensures TraceRust(k, Wasm, buf, r) == Fill(buf, k.width, r, ColorComponents(c, k.maxIterations))
    ensures Cost(k, r) == 1
  {
  }

  /** The split branch of `render`: push the quarters of `r` at the
      midpoints, skipping those that would be empty. */
  method PushQuarters(rectStack: seq<Rect>, r: Rect) returns (stack: seq<Rect>)
    requires !IsEmpty(r)
    ensures stack == rectStack + RustChildren(r)
  {
    var midX := r.x1 + (r.x2 - r.x1) / 2;
    var midY := r.y1 + (r.y2 - r.y1) / 2;
    stack := rectStack + [Rect(r.x1, r.y1, midX, midY)];
    ghost var pushed := [Rect(r.x1, r.y1, midX, midY)];
    if midX < r.x2 {
      stack := stack + [Rect(midX + 1, r.y1, r.x2, midY)];
      pushed := pushed + [Rect(midX + 1, r.y1, r.x2, midY)];
    }
    if midY < r.y2 {
      stack := stack + [Rect(r.x1, midY + 1, midX, r.y2)];
      pushed := pushed + [Rect(r.x1, midY + 1, midX, r.y2)];
    }
    if midX < r.x2 && midY < r.y2 {
      stack := stack + [Rect(midX + 1, midY + 1, r.x2, r.y2)];
      pushed := pushed + [Rect(midX + 1, midY + 1, r.x2, r.y2)];
    }
    assert pushed == RustChildren(r);
  }

  /** What pushing the children of a popped rectangle does to the work-stack:
      it stays inside the image, its cost drops by one, and draining it
      still yields the same final buffer. */
  lemma PushedChildren(k: Kernel, height: nat, buf: seq<Byte>, rest: seq<Rect>, r: Rect, stack: seq<Rect>)
    requires ValidKernel(k) && NoneEmpty(rest) && !Uniform(k, r) && Splittable(r)
    requires InImage(r, k.width, height) && forall j :: 0 <= j < |rest| ==> InImage(rest[j], k.width, height)
    requires stack == rest + RustChildren(r)
    ensures NoneEmpty(stack) && forall j :: 0 <= j < |stack| ==> InImage(stack[j], k.width, height)
    ensures SumCost(k, stack) == SumCost(k, rest) + Cost(k, r) - 1
    ensures Drain(k, Wasm, buf, stack) == Drain(k, Wasm, TraceRust(k, Wasm, buf, r), rest)
  {
    RustChildrenPartition(r, k.width, height);
    ChildrenCost(k, r);
    SumCostAppend(k, rest, RustChildren(r));
    DrainAppend(k, Wasm, buf, rest, RustChildren(r));
    DrainChildren(k, Wasm, buf, r);
  }
}
