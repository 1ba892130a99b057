/** The JavaScript worker: `onmessage`, which sets the module variables from a
    request and traces the whole image, the recursive `trace`, and the
    memoised `getPixelColor`. */
module Worker {
  import opened Rects
  import opened Palette
  import opened Raster
  import opened Escape
  import opened Subdivision

  /** The fields of a render request message. */
  datatype Params = Params(width: nat, height: nat, centerX: real, centerY: real, scale: real,
                           maxIterations: nat, bailoutRadius: real)

  /** What the handler posts back: an image, or nothing when `new ImageData`
      refuses a zero width or height. */
  datatype Posted = Image(pixels: seq<Byte>) | NoImage

  /** The request a message describes; the bailout radius is squared. */
  function ViewOf(params: Params): View
  {
    View(params.width, params.height, params.centerX, params.centerY, params.scale,
         params.maxIterations, params.bailoutRadius * params.bailoutRadius)
  }

  /** The module variables as one message sets them: they stay fixed while
      `trace` runs, except for the buffer's contents and the cache. Every
      message assigns all of them afresh, allocates a new buffer and clears
      the cache, so one object per message models them. */
  class Frame {
    const width: nat
    const height: nat
    const centerX: real
    const centerY: real
    const scale: real
    const maxIterations: nat
    const bailoutSq: real
    const aspect: real
    const pixels: array<Byte>
    /** `colorCache`, keyed by the pixel (the source keys it by the string `"x,y"`). */
    var colorCache: map<(int, int), nat>
    /** The count of every pixel of the request, as the subdivision sees it. */
    ghost const kernel: Kernel

    /** The request the variables describe. */
    function Request(): View
    {
      View(width, height, centerX, centerY, scale, maxIterations, bailoutSq)
    }

    /** The buffer has one RGBA quadruple per pixel, the aspect is
        `width / height`, the kernel holds the count of every pixel, and every
        cached count is the pixel's count, which is at most the cap. */
    ghost predicate Ready()
      reads this
    {
      && width > 0 && height > 0
      && aspect == width as real / height as real
      && pixels.Length == width * height * 4
      && kernel == KernelOf(Request())
      && (forall p :: p in colorCache ==> colorCache[p] <= maxIterations)
      && forall p :: p in colorCache ==> colorCache[p] == IterAt(Request(), p.0, p.1)
    }

    /** The assignments of `onmessage` for a drawable request: the
        parameters, the squared bailout radius, the aspect, a zeroed buffer
        and an empty cache. */
    constructor (params: Params)
      requires params.width > 0 && params.height > 0
      ensures Ready() && fresh(pixels) && Request() == ViewOf(params)
      ensures pixels[..] == Zeros(params.width * params.height * 4) && colorCache == map[]
      ensures kernel == KernelOf(ViewOf(params))
    {
      var v := ViewOf(params);
      width, height := v.width, v.height;
      centerX, centerY, scale := v.centerX, v.centerY, v.scale;
      maxIterations, bailoutSq := v.maxIterations, v.bailoutSq;
      aspect := v.width as real / v.height as real;
      pixels := new Byte[v.width * v.height * 4](_ => 0);
      colorCache := map[];
      kernel := KernelOf(v);
      new;
      assert pixels[..] == Zeros(v.width * v.height * 4);
    }

    /** `trace(x1, y1, x2, y2)`: evaluate the four corners, fill when they
        agree, otherwise recurse into the four quarters when the rectangle
        spans more than one pixel. */
    method Trace(r: Rect)
      requires Ready() && Drawable(r, width, height)
      modifies this`colorCache, pixels
      ensures Ready()
      ensures pixels[..] == TraceJs(kernel, Js, old(pixels[..]), r)
      decreases Measure(r)
    {
      ghost var start := pixels[..];
      var c1, uniform := Corners(r);
      if uniform {
        var color := JsColorComponents(c1, maxIterations);
        FillRect(pixels, width, height, r, ClampRgb(color));
        TraceJsFills(kernel, start, r, c1);
      } else if r.x2 - r.x1 > 0 || r.y2 - r.y1 > 0 {
        var midX := (r.x1 + r.x2) / 2;
        var midY := (r.y1 + r.y2) / 2;
        JsSplit(r, midX, midY, width, height);
        Trace(Rect(r.x1, r.y1, midX, midY));
        ghost var b0 := pixels[..];
        Trace(Rect(midX + 1, r.y1, r.x2, midY));
        ghost var b1 := pixels[..];
        Trace(Rect(r.x1, midY + 1, midX, r.y2));
        ghost var b2 := pixels[..];
        Trace(Rect(midX + 1, midY + 1, r.x2, r.y2));
        TraceJsSplits(kernel, start, r, midX, midY, b0, b1, b2, pixels[..]);
      } else {
        TraceJsStops(kernel, start, r);
      }
    }

    /** The four corner evaluations of `trace`, top-left first: the
        top-left count, and whether all four counts agree. */
    method Corners(r: Rect) returns (c1: nat, uniform: bool)
      requires Ready()
      modifies this`colorCache
      ensures Ready()
      ensures c1 == kernel.iter(r.x1, r.y1) && c1 <= maxIterations
      ensures uniform <==> Uniform(kernel, r)
    {
      c1 := GetPixelColor(r.x1, r.y1);
      var c2 := GetPixelColor(r.x2, r.y1);
      var c3 := GetPixelColor(r.x1, r.y2);
      var c4 := GetPixelColor(r.x2, r.y2);
      uniform := c1 == c2 && c1 == c3 && c1 == c4;
    }

    /** `getPixelColor`: the cached count if there is one, otherwise the count
        computed and stored. A cached value is never replaced. */
    method GetPixelColor(x: int, y: int) returns (iteration: nat)
      requires Ready()
      modifies this`colorCache
      ensures Ready()
      ensures iteration == kernel.iter(x, y) && iteration <= maxIterations
      ensures colorCache == old(colorCache)[(x, y) := iteration]
      ensures (x, y) in old(colorCache) ==> colorCache == old(colorCache)
    {
      KernelCounts(Request(), x, y);
      if (x, y) in colorCache {
        return colorCache[(x, y)];
      }
      iteration := PixelCount(Request(), aspect, x, y);
      colorCache := colorCache[(x, y) := iteration];
    }
  }

  /** `onmessage`: set the variables, trace the whole image and post the
      buffer, every pixel of which is opaque. For a zero width or height the trace paints nothing and
      `new ImageData` throws, so nothing is posted. */
  method OnMessage(params: Params) returns (posted: Posted)
    ensures posted.Image? <==> params.width > 0 && params.height > 0
    ensures posted.Image? ==>
      && |posted.pixels| == params.width * params.height * 4
      && posted.pixels == TraceJs(KernelOf(ViewOf(params)), Js, Zeros(params.width * params.height * 4),
                                  Full(params.width, params.height))
      && forall i :: 0 <= i < |posted.pixels| && i % 4 == 3 ==> posted.pixels[i] == 255
  {
    if params.width == 0 || params.height == 0 {
      return NoImage;
    }
    var frame := new Frame(params);
    frame.Trace(Full(params.width, params.height));
    posted := Image(frame.pixels[..]);
    RenderedImage(frame.kernel, params.height, Js, Zeros(params.width * params.height * 4));
  }

  /** A rectangle whose corners share the count `c` is filled with the
      clamped JavaScript colour of `c`. */
  lemma TraceJsFills(k: Kernel, buf: seq<Byte>, r: Rect, c: nat)
    requires ValidKernel(k) && Uniform(k, r) && c == k.iter(r.x1, r.y1)
    ensures TraceJs(k, Js, buf, r) == Fill(buf, k.width, r, ClampRgb(JsColorComponents(c, k.maxIterations)))
  {
  }

  /** A rectangle that is split is traced quarter by quarter, in order. */
  lemma TraceJsSplits(k: Kernel, buf: seq<Byte>, r: Rect, midX: int, midY: int,
                      b0: seq<Byte>, b1: seq<Byte>, b2: seq<Byte>, b3: seq<Byte>)
    requires ValidKernel(k) && !Uniform(k, r) && Splittable(r)
    requires midX == (r.x1 + r.x2) / 2 && midY == (r.y1 + r.y2) / 2
    requires b0 == TraceJs(k, Js, buf, Rect(r.x1, r.y1, midX, midY))
    requires b1 == TraceJs(k, Js, b0, Rect(midX + 1, r.y1, r.x2, midY))
    requires b2 == TraceJs(k, Js, b1, Rect(r.x1, midY + 1, midX, r.y2))
    requires b3 == TraceJs(k, Js, b2, Rect(midX + 1, midY + 1, r.x2, r.y2))
    ensures TraceJs(k, Js, buf, r) == b3
  {
    JsSplit(r, midX, midY, 0, 0);
  }

  /** A rectangle that is neither uniform nor splittable (an empty one; a
      single pixel is always uniform) leaves the buffer as it is. */
  lemma TraceJsStops(k: Kernel, buf: seq<Byte>, r: Rect)
    requires ValidKernel(k) && !Uniform(k, r) && !Splittable(r)
    ensures TraceJs(k, Js, buf, r) == buf
  {
  }
}
