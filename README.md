# Boundary-tracing Mandelbrot renderer, in Dafny

This project models the adaptive-subdivision ("boundary tracing") Mandelbrot
renderer. The renderer exists twice:

- `src/lib.rs` (compiled to WebAssembly). `BoundaryTracer::render` pops pixel
  rectangles from an explicit work-stack.
- `worker_js.js` (a Web Worker). `trace` recurses on itself.

Both renderers work the same way on a rectangle:

1. They compute the escape count of its four corner pixels, through a memoising
   cache.
2. If the four counts are equal, they flat-fill the rectangle into an RGBA byte
   buffer with the colour of that count.
3. Otherwise, if the rectangle spans more than one pixel, they split it at the
   integer midpoints into quarters.

The JavaScript version always recurses into all four quarters, and some of them
may be empty. The Rust version pushes only the non-empty ones.

Floating-point values are modelled as exact reals. Integers are unbounded; the
`u32` range of the Rust code is a precondition where it matters.

Modules, one file each:

| module | file | contents |
|---|---|---|
| `Rects` | `rects.dfy` | inclusive rectangles; the two midpoint formulas; the four quarters (`trace`) and the non-empty children (`render`); partition and shrinking lemmas |
| `Palette` | `palette.dfy` | hue, the six-sector HSV formula, Rust's saturating `as u8`, the clamping and rounding store of a `Uint8ClampedArray`; black exactly for the cap; the two renderers differ by at most one per channel |
| `Raster` | `raster.dfy` | the byte layout `(y * width + x) * 4`; `Fill`, the specification of a rectangle fill; `FillRect`, the nested loops of `fill_rect` / `fillRect`, proved against `Fill` |
| `Escape` | `escape.dfy` | the pixel-to-plane mapping, the cardioid / period-2 bulb short-circuit and the escape loop (`CountIterations`, proved against the recursive `EscapeFrom`); what a count means in terms of the orbit |
| `Subdivision` | `subdivision.dfy` | pure specifications: `TraceJs` (the recursion of `trace`), `TraceRust` and `Drain` (the work-stack of `render`), `Leaf` / `PixelColour` (which colour each pixel gets); for one colour conversion the two traversal orders paint the same image, and the two renderers' images differ by at most one per byte |
| `Tracer` | `tracer.dfy` | the class `BoundaryTracer` with its cache and buffer; `Render`, a loop over the work-stack proved against `TraceRust`; the exported `render` |
| `Worker` | `worker.dfy` | `onmessage`; the module variables as a `Frame` object per message; the recursive `Trace` proved against `TraceJs`; the memoised `GetPixelColor` |
| `Scenario` | `scenario.dfy` | a concrete 100 x 100 request whose four image corners agree, so the whole image is filled with one colour |

The subdivision is stated over an abstract `Kernel`: the image width, the
iteration cap, and a count for every pixel that never exceeds the cap.
`KernelOf` ties a kernel to the escape-time count of a render request. The
classes keep the kernel as a ghost field, and their invariant says that every
cached count is the kernel's count for that pixel.

`render` processes the quarters in the reverse order of `trace`: the last one
pushed is popped first. The quarters are pairwise disjoint, so the order does
not matter. `Subdivision.TraversalsAgree` proves that both orders produce the
same buffer for a given colour conversion.

The two renderers convert colours differently. Rust casts each channel with
`as u8`, which truncates. JavaScript stores the unrounded channel into a
`Uint8ClampedArray`, which rounds half to even. Their images therefore differ:
`Subdivision.RenderersDifferByAtMostOne` proves that the JavaScript byte is the
Rust byte or one more, and `Scenario.RenderersDifferOnDemo` exhibits a request
where every red byte differs.

The code flat-fills only when the four corner counts are exactly equal. It has
no minimum subdivision depth, no gradient tolerance and no averaging of corner
counts. Each pixel is coloured with the plain hue of the count, without smooth
colouring. The model follows the code in all of this. `Scenario.WholeImageFlat`
shows the consequence on a concrete request:

- all four corners of a 100 x 100 image of the whole set escape after two
  steps;
- each renderer therefore paints every pixel with one exterior colour, its own
  conversion of the count 2;
- yet the centre pixel is interior.

## Model

Rows whose third column starts with "proof step" connect the code as written to a specification function. Rows for a definition without an `ensures` name the lemmas that state its properties.

| member | source | states |
|---|---|---|
| Rects.Splittable | src/lib.rs:60 | the guard of the split branch: `x2 > x1` or `y2 > y1`, written `(x2 - x1) > 0` or `(y2 - y1) > 0` in `trace`; it has no `ensures`. `QuartersShrink` states that the quarters of a splittable rectangle are smaller, and `SinglePixelFills` that a one-pixel rectangle never reaches the guard |
| Rects.Quarters | worker_js.js:47-52 | the four rectangles `trace` recurses into, cut at `midX` / `midY`; its `ensures` gives only their number (four). Their meaning is stated by `QuartersPartition`, `QuartersShrink` and `QuadrantOf` |
| Rects.RustChildren | src/lib.rs:61-67 | the rectangles `render` pushes for a split, in push order; it has no `ensures`. Its properties are stated by `RustChildrenPartition` and `RustChildrenAreQuarters` |
| Rects.MidpointsAgree | src/lib.rs:61-62 | Rust's overflow-free midpoint `a + (b - a) / 2` equals JavaScript's `Math.floor((a + b) / 2)`, and it lies between `a` and `b` |
| Rects.QuartersPartition | worker_js.js:47-52 | the four quarters `trace` recurses into partition the parent: a pixel is in the parent iff it is in some quarter, never in two quarters, and its quadrant holds it |
| Rects.QuartersShrink | worker_js.js:46-52 | when the rectangle spans more than one pixel, each quarter has a strictly smaller measure `max(x2-x1,0) + max(y2-y1,0)`, so recursion terminates; quarters of a rectangle that is empty or inside the image are again empty or inside it |
| Rects.JsSplit | worker_js.js:47-52 | the four calls of `trace`, written with `midX` / `midY`, are the quarters in order; each is smaller than the parent and stays drawable |
| Rects.RustChildrenPartition | src/lib.rs:60-67 | `render` pushes 2 to 4 children; each lies inside the image and inside the parent and is strictly smaller; they are pairwise disjoint and cover every pixel of the parent |
| Rects.RustChildrenAreQuarters | src/lib.rs:61-67 | the pushed children are exactly the non-empty quarters of `trace`, in the same order, so the guards `mid_x < x2` and `mid_y < y2` only drop empty quarters |
| Rects.QuadrantOf | worker_js.js:49-52 | a pixel in a quarter picks that quarter, which lies inside the parent |
| Palette.Hue | src/lib.rs:114 | the hue `(360 * iteration / maxIterations) % 360` with a truncating remainder; it has no `ensures`. Its range is stated by `HueRange` |
| Palette.Sector | src/lib.rs:126-138 | the branch the `if h < 60.0 ... else` chain takes; it has no `ensures`. `SectorInterval` states that it picks the sector whose 60-degree interval holds the hue |
| Palette.HsvScaled | worker_js.js:106-116 | the six-sector HSV formula before the final conversion: `(prime + m) * 255` per channel; it has no `ensures`. Its properties are stated by `SectorInterval`, `SectorPrimes` and `ScaledChannelBounds` |
| Palette.HsvToRgb | src/lib.rs:121-145 | `hsv_to_rgb`: the scaled channels cast with `as u8`; it has no `ensures`. Its bounds are stated by `AsU8` and `BlackIffInterior` |
| Palette.ColorComponents | src/lib.rs:112-117 | `get_color_components`: black for the cap, otherwise `hsv_to_rgb(hue, 0.8, 0.9)`; it has no `ensures`. What it promises is stated by `BlackIffInterior` |
| Palette.JsColorComponents | worker_js.js:102-117 | `getColorComponents`: black for the cap, otherwise the unrounded scaled channels; it has no `ensures`. Its properties are stated by `ScaledChannelBounds` and `BackendsDifferByAtMostOne` |
| Palette.Paint | worker_js.js:93-95 | the bytes each renderer stores for a count: the Rust colour, or the JavaScript channels after the clamped store; it has no `ensures`. What it promises is stated by `BlackIffInterior` and `BackendsDifferByAtMostOne` |
| Palette.HueRange | src/lib.rs:114 | the hue `(360 * iteration / maxIterations) % 360` lies in `[0, 360)` |
| Palette.FModRange | src/lib.rs:114 | the floating remainder of a non-negative value by a positive modulus lies in `[0, m)` |
| Palette.SectorInterval | src/lib.rs:126-138 | for a hue in `[0, 360)`, the `if h < 60 ... else` chain picks sector `k` iff `60k <= h < 60(k+1)`: exactly one sector each |
| Palette.SectorPrimes | src/lib.rs:126-138 | every sector assigns `(r', g', b')` a permutation of the chroma, the secondary value and zero |
| Palette.AsU8 | src/lib.rs:140-144 | the `as u8` cast of a value in `[0, 256)` is its integer part |
| Palette.ClampToUint8 | worker_js.js:93-95 | a store into the clamped array of a value in `[0, 255]` is within one half of it |
| Palette.ScaledChannelBounds | src/lib.rs:121-145 | with saturation 0.8 and value 0.9, every scaled channel of a hue in `[0, 360)` lies in `[45.9, 229.5]` |
| Palette.BlackIffInterior | src/lib.rs:112-117 | for either renderer, a pixel is painted black iff its count is the cap; any other count gets channels in `[45, 230]` |
| Palette.BackendsDifferByAtMostOne | worker_js.js:102-117 | for every count, the JavaScript channels exceed the Rust channels by 0 or 1, because the cast truncates while the clamped store rounds |
| Raster.Fill | src/lib.rs:100-110 | the buffer after `fill_rect` / `fillRect`; its `ensures` gives only the length. The byte-by-byte content is stated by `FillAt` and `FillEmpty`, and the loops are proved against it in `FillRect` |
| Raster.ByteIndexBound | src/lib.rs:103 | the index `(y * width + x) * 4` of an image pixel and its three successors lie inside the buffer |
| Raster.FillAt | src/lib.rs:103-107 | after a fill, byte `k` of pixel `(x, y)` is channel `k` of the colour (alpha 255) when the pixel is in the rectangle, and unchanged otherwise |
| Raster.FillEmpty | worker_js.js:89-98 | filling an empty rectangle (`x1 > x2` or `y1 > y2`) writes nothing |
| Raster.FillRect | src/lib.rs:100-110 | the nested loops leave the buffer equal to `Fill` of the old buffer: exactly the rectangle's pixels painted, alpha 255, every other byte unchanged |
| Escape.PlanePoint | src/lib.rs:78-79 | the pixel-to-plane mapping `center + (x / width - 0.5) * scale * aspect`; it has no `ensures`. Its properties are stated by `PlanePointParts` and `CentrePixel` |
| Escape.InCardioidOrBulb | src/lib.rs:82-84 | the cardioid / period-2 bulb test; it has no `ensures`. `CardioidTest` proves it equal to the test as written, and `IterationCountMeaning` says it yields the cap |
| Escape.Step | src/lib.rs:89-91 | the loop body `zx * zx - zy * zy + cx`, `2 * zx * zy + cy`; it has no `ensures`. `EscapeFromStep` states that one turn of the loop is one `Step`, and `EscapeFromMeaning` what the steps compute |
| Escape.EscapeFrom | src/lib.rs:87-93 | the escape loop as a recursion on the step number; it has no `ensures`. What it computes is stated by `EscapeFromMeaning` |
| Escape.IterationCount | src/lib.rs:81-94 | the count of a plane point: the cap for the short-circuit, otherwise the escape loop from `z = 0`; it has no `ensures`. What it means is stated by `IterationCountMeaning` |
| Escape.IterAt | src/lib.rs:78-94 | the count of a pixel of a view; it has no `ensures`. Its bounds are stated by `IterAtBound` |
| Escape.PlanePointParts | src/lib.rs:78-79 | proof step: the mapping as the code computes it, with the aspect precomputed as `width / height`, is the view's plane point |
| Escape.CardioidTest | src/lib.rs:82-84 | proof step: the test written with `q` computed first is the cardioid / period-2 bulb predicate |
| Escape.EscapeFromStep | src/lib.rs:88-92 | proof step: one turn of the loop on `zx`, `zy`, `iteration` keeps the count the loop will reach |
| Escape.EscapeFromStop | src/lib.rs:88 | proof step: when the loop condition fails, the count reached is the current `iteration` |
| Escape.CountIterations | src/lib.rs:81-94 | the short-circuit and the escape loop compute `IterationCount`, which never exceeds the cap |
| Escape.EscapeFromMeaning | src/lib.rs:87-93 | started on the orbit at step `n`, the loop stops at the first step whose `z` is outside the bailout circle, or at the cap; it never exceeds the cap |
| Escape.IterationCountMeaning | src/lib.rs:81-93 | a count is at most the cap; it is the cap when the cardioid / bulb test holds; otherwise `z_0 .. z_{n-1}` stay inside the bailout circle, and a count below the cap means `z_n` left it |
| Escape.IterAtBound | src/lib.rs:78-93 | every pixel's count is in `[0, maxIterations]`, and it is the cap when the pixel maps into the cardioid or the bulb |
| Escape.PixelCount | src/lib.rs:78-94 | the uncached part of `get_pixel_color` returns the pixel's count, at most the cap |
| Escape.OriginStays | src/lib.rs:88-93 | from `z = 0` the orbit of `c = 0` never leaves a non-negative bailout, so the loop runs to the cap |
| Escape.OriginIsInterior | src/lib.rs:81-93 | `c = 0` gets the cap, through the short-circuit and through the loop alone |
| Escape.CentrePixel | src/lib.rs:78-79 | for even dimensions, pixel `(width / 2, height / 2)` maps to the centre of the view |
| Subdivision.Uniform | src/lib.rs:57 | the fill test `c1 == c2 && c1 == c3 && c1 == c4`, exact equality of the four corner counts; it has no `ensures`. `Leaf` states that every pixel is painted from a uniform rectangle, and `SinglePixelFills` that a one-pixel rectangle is uniform |
| Subdivision.TraceJs | worker_js.js:33-54 | the recursion of `trace` on a pure buffer; its `ensures` gives only the length. The per-byte result is stated by `TraceJsAt` and `RenderedImage` |
| Subdivision.TraceRust | src/lib.rs:51-68 | what `render` does for one popped rectangle and everything pushed on its behalf, last pushed first; its `ensures` gives only the length. The per-byte result is stated by `TraceRustAt`, and `TraversalsAgree` ties it to `TraceJs` |
| Subdivision.Drain | src/lib.rs:49-69 | the buffer the loop of `render` reaches from a work-stack, popping the top first; its `ensures` gives only the length. Its stack discipline is stated by `DrainAppend`, `DrainPush` and `DrainChildren` |
| Subdivision.KernelOf | src/lib.rs:73-98 | the kernel of a request has the request's width and cap, and none of its counts exceeds the cap |
| Subdivision.KernelCounts | src/lib.rs:73-98 | proof step: the kernel's count for each pixel is that pixel's escape count, which is at most the cap |
| Subdivision.Leaf | worker_js.js:40-53 | the sub-rectangle the subdivision reaches around a pixel contains the pixel, lies inside the traced rectangle and has four equal corner counts |
| Subdivision.LeafInQuarter | worker_js.js:49-52 | the leaf of a pixel in a split rectangle is its leaf in the quarter that holds it |
| Subdivision.TraceJsAt | worker_js.js:33-54 | after `trace` of `r`, each byte of a pixel in `r` is that channel of the corner colour of the pixel's leaf (alpha 255), and every byte outside `r` is unchanged |
| Subdivision.TraceRustAt | src/lib.rs:51-68 | the same for a rectangle popped by `render`, together with everything pushed on its behalf |
| Subdivision.TraversalsAgree | src/lib.rs:51-68 | for one colour conversion, the work-stack order of `render` and the recursion order of `trace` produce the same buffer |
| Subdivision.RenderersDifferByAtMostOne | worker_js.js:21 | the image of `render` (work-stack, `as u8` colours) and the image of `trace` (recursion, clamped store) have the same length, and on every byte the JavaScript value exceeds the Rust value by 0 or 1 |
| Subdivision.RendererByte | src/lib.rs:49 | proof step: one byte of the two renderers' images differs by 0 or 1 |
| Subdivision.ImageByte | src/lib.rs:49 | every byte of a traced image belongs to a pixel of the image and carries that pixel's channel |
| Subdivision.RenderedImage | worker_js.js:21 | the whole traced image is the same for both traversals, every pixel gets its leaf colour whatever the buffer held before, and every alpha byte is 255 |
| Subdivision.PixelColourMeaning | src/lib.rs:57-59 | a pixel is painted black iff its leaf's corner count is the cap; a pixel that is a corner of its leaf gets the colour of its own count |
| Subdivision.SinglePixelFills | src/lib.rs:52-59 | a one-pixel rectangle always takes the fill branch, in both traversals, and gets the pixel's own colour |
| Subdivision.DrainAppend | src/lib.rs:51 | the work-stack is last in, first out: draining `s + t` drains `t` first, then `s` |
| Subdivision.DrainPush | src/lib.rs:51 | popping a rectangle that was conditionally pushed on top |
| Subdivision.DrainThree | src/lib.rs:64-66 | draining up to three pushed children pops them last first |
| Subdivision.DrainFour | src/lib.rs:64-67 | draining up to four pushed children pops them last first |
| Subdivision.DrainChildren | src/lib.rs:60-67 | draining the children pushed for a non-uniform, splittable rectangle gives what `TraceRust` prescribes for it |
| Subdivision.SumCostAppend | src/lib.rs:51 | the pops still to come for a stack add up over concatenation |
| Subdivision.SumCostPush | src/lib.rs:51 | pushing a rectangle adds its pops to those still to come |
| Subdivision.SumCostPushIf | src/lib.rs:65-67 | a conditional push adds the rectangle's pops only when it is pushed |
| Subdivision.SumCostThree | src/lib.rs:64-66 | the pops of up to three pushed children, one term per push |
| Subdivision.SumCostFour | src/lib.rs:64-67 | the pops of up to four pushed children, one term per push |
| Subdivision.ChildrenCost | src/lib.rs:60-67 | the children pushed for a rectangle need exactly one pop fewer than the rectangle itself, so the loop terminates |
| Tracer.BoundaryTracer.constructor | src/lib.rs:33-46 | `new` stores the request, the aspect `width / height`, a zeroed `width * height * 4` buffer and an empty cache |
| Tracer.BoundaryTracer.GetPixelColor | src/lib.rs:73-98 | returns the pixel's escape count, at most the cap; the cache gains exactly that entry, and a cached pixel leaves the cache unchanged |
| Tracer.BoundaryTracer.Corners | src/lib.rs:52-55 | returns the top-left count, and whether the four corner counts are equal |
| Tracer.BoundaryTracer.HandleTop | src/lib.rs:51-68 | one turn of the loop keeps every stacked rectangle non-empty and inside the image, keeps the final buffer the stack will produce, and leaves exactly one pop fewer to come |
| Tracer.BoundaryTracer.Render | src/lib.rs:48-71 | the loop ends with the buffer that `TraceRust` prescribes for the whole image, and returns a copy of it |
| Tracer.Render | src/lib.rs:6-17 | the exported `render` returns `width * height * 4` bytes, every alpha byte 255, equal to the image both traversals paint from a zeroed buffer |
| Tracer.TraceRustFills | src/lib.rs:57-59 | proof step: a popped rectangle with four equal corner counts is filled with the colour of that count, in a single pop |
| Tracer.PushQuarters | src/lib.rs:61-67 | the pushes of the split branch append exactly the non-empty children to the stack |
| Tracer.PushedChildren | src/lib.rs:60-67 | pushing the children keeps the stack inside the image, removes one pop, and keeps the buffer the stack will produce |
| Worker.ViewOf | worker_js.js:12-14 | the request a message sets, with `bailoutSq = bailoutRadius * bailoutRadius`; it has no `ensures`. The constructor of `Frame` states what the message sets |
| Worker.Frame.constructor | worker_js.js:12-16 | a message sets the request, `bailoutSq = bailoutRadius * bailoutRadius`, the aspect, a zeroed `width * height * 4` buffer and an empty cache |
| Worker.Frame.Trace | worker_js.js:33-54 | `trace` leaves the buffer equal to `TraceJs` of the old buffer |
| Worker.Frame.Corners | worker_js.js:35-38 | returns the top-left count, and whether the four corner counts are equal |
| Worker.Frame.GetPixelColor | worker_js.js:59-86 | returns the pixel's escape count, at most the cap; the cache gains exactly that entry, and a cached pixel leaves the cache unchanged |
| Worker.TraceJsFills | worker_js.js:41-43 | proof step: a rectangle with four equal corner counts is filled with the clamped colour of that count |
| Worker.TraceJsSplits | worker_js.js:46-52 | a split rectangle is traced quarter by quarter, in call order |
| Worker.TraceJsStops | worker_js.js:46 | proof step: a rectangle that is neither uniform nor larger than one pixel (an empty one) is left as it is |
| Worker.OnMessage | worker_js.js:9-30 | an image is posted iff both dimensions are positive; it has `width * height * 4` bytes, every alpha byte is 255, and it is the traced image of the request |
| Scenario.EscapesAtTwo | src/lib.rs:87-93 | a point outside the cardioid and the bulb, inside the bailout after one step and outside it after two, gets the count 2 |
| Scenario.CornerEscapes | src/lib.rs:78-93 | each corner of the 100 x 100 view of scale 4 maps to `(-2 or 1.96, -2 or 1.96)` and gets the count 2 |
| Scenario.CentreIsInterior | src/lib.rs:78-85 | the centre pixel `(50, 50)` of that request maps to `c = 0`, whose count is the cap 1500 |
| Scenario.WholeImageFlat | src/lib.rs:57-59 | for that request the first rectangle is uniform, so both traversals fill the whole image with the non-black colour of count 2, although the centre pixel's count is the cap 1500 |
| Scenario.RedOfCountTwo | src/lib.rs:140-141 | the count 2 of a cap of 1500 has the red channel 229.5; Rust's `as u8` stores 229 and the clamped array of worker_js.js:93 stores 230 |
| Scenario.RenderersDifferOnDemo | worker_js.js:93 | for the worked request every red byte is 229 in the image of `render` and 230 in the image of the worker, so the two renderers' images are not equal |

## Left out

- Floating-point rounding, infinities and NaN: all `f64` / JavaScript number arithmetic is exact real arithmetic. The escape loop, the hue and the colour channels are therefore the mathematically exact values.
- Soundness of the cardioid / bulb short-circuit is not proved. The model does not prove that points passing the test belong to the set; it proves that such points get the cap.
- Tracer.BoundaryTracer.constructor: requires `width, height >= 1` and `width * height * 4 <= 2^32 - 1`. The source computes `width - 1` and the buffer length on `u32`; outside this range the code panics or wraps, and that is not modelled.
- Worker.OnMessage: for a zero width or height, the source evaluates corners at NaN or infinite plane points and fills an empty rectangle, and then `new ImageData` throws. The model posts nothing (`NoImage`) and does not model the cache entries or the exception.
- Worker.Frame: the module-level variables of the worker are modelled as one object per message. Each message reassigns all of them, allocates a new buffer and clears the shared cache, so nothing carries over between messages.
- Worker.Frame.GetPixelColor: the cache key is the pixel pair, not the string `"x,y"`. The string is a faithful encoding of the pair for integer coordinates.
- Palette.ColorComponents: requires `iteration == maxIterations || maxIterations > 0`. With a zero cap every count is the cap, so the source never divides by zero there.
- Tracer.BoundaryTracer.Render: its contract ties the buffer to `TraceRust`. Which colour each pixel gets is stated by `Subdivision.RenderedImage` and `Subdivision.TraceRustAt`, not repeated in the method.
- Timing (`performance.now()`), `postMessage`, the transfer of the `ImageData` buffer and the `wasm_bindgen` export plumbing are I/O and are not modelled.
- main.js, renderer_js.js, worker_wasm.js and renderer_wasm.js are not part of this model. They cover the UI, the zoom loop, the perturbation renderer and the message plumbing of the WebAssembly worker.
- A minimum subdivision depth, a gradient tolerance and averaging of corner counts are not modelled, because the code has none of them. It flat-fills only on exact equality of the four corner counts.
