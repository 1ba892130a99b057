/** The colour mapper: iteration count to hue, the six-sector HSV formula, and
    the two ways a channel becomes a byte (Rust's `as u8` and the store into a
    JavaScript `Uint8ClampedArray`). Floating-point values are exact reals here. */
module Palette {

  type Byte = b: int | 0 <= b < 256

  datatype Rgb = Rgb(r: Byte, g: Byte, b: Byte)

  /** Three channels as floating values, before conversion to bytes. */
  datatype Channels = Channels(r: real, g: real, b: real)

  /** The interior colour. */
  const Black: Rgb := Rgb(0, 0, 0)

  /** The fixed saturation and value of `get_color_components`. */
  const Saturation: real := 0.8
  const Value: real := 0.9

  function Abs(t: real): (a: real)
    ensures a >= 0.0 && (a == t || a == -t)
  {
    if t < 0.0 then -t else t
  }

  /** Rounding toward zero. */
  function Trunc(t: real): (n: int)
    ensures t >= 0.0 ==> n as real <= t < n as real + 1.0
  {
    if t >= 0.0 then t.Floor else -((-t).Floor)
  }

  /** The floating remainder `a % m`, whose sign is that of `a`. */
  function FMod(a: real, m: real): (r: real)
    requires m > 0.0
  {
    a - m * Trunc(a / m) as real
  }

  lemma FModRange(a: real, m: real)
    requires a >= 0.0 && m > 0.0
    ensures 0.0 <= FMod(a, m) < m
  {
    var t := a / m;
    Sandwich(a, m, t, Trunc(t) as real);
  }

  /** Multiplying `q <= t < q + 1` by `m > 0`, where `m * t == a`. */
  lemma Sandwich(a: real, m: real, t: real, q: real)
    requires m > 0.0 && t == a / m && q <= t < q + 1.0
    ensures 0.0 <= a - m * q < m
  {
    assert m * t == a;
    MulMonotoneReal(q, t, m);
    MulMonotoneReal(t, q + 1.0, m);
    assert m * (q + 1.0) == m * q + m;
  }

  lemma MulMonotoneReal(s: real, t: real, m: real)
    requires s <= t && m > 0.0
    ensures m * s <= m * t
    ensures s < t ==> m * s < m * t
  {
  }

  /** `(360 * iteration / maxIterations) % 360`. */
  function Hue(iteration: nat, maxIterations: nat): real
    requires maxIterations > 0
  {
    FMod(360.0 * iteration as real / maxIterations as real, 360.0)
  }

  lemma HueRange(iteration: nat, maxIterations: nat)
    requires maxIterations > 0
    ensures 0.0 <= Hue(iteration, maxIterations) < 360.0
  {
    FModRange(360.0 * iteration as real / maxIterations as real, 360.0);
  }

  /** The branch of the `if h < 60 ... else if h < 300 ... else` chain. */
  function Sector(h: real): nat
  {
    if h < 60.0 then 0 else if h < 120.0 then 1 else if h < 180.0 then 2
    else if h < 240.0 then 3 else if h < 300.0 then 4 else 5
  }

  /** For a hue in `[0, 360)` exactly one sector is chosen: the one whose
      60-degree interval holds the hue. */
  lemma SectorInterval(h: real, k: nat)
    requires 0.0 <= h < 360.0 && k < 6
    ensures Sector(h) == k <==> 60.0 * k as real <= h < 60.0 * (k + 1) as real
  {
  }

  /** `(r', g', b')` of the sector formula: a permutation of the chroma `c`,
      the secondary `x` and zero. */
  function SectorPrimes(h: real, c: real, x: real): (p: Channels)
    ensures multiset{p.r, p.g, p.b} == multiset{c, x, 0.0}
  {
    match Sector(h)
    case 0 => Channels(c, x, 0.0)
    case 1 => Channels(x, c, 0.0)
    case 2 => Channels(0.0, c, x)
    case 3 => Channels(0.0, x, c)
    case 4 => Channels(x, 0.0, c)
    case _ => Channels(c, 0.0, x)
  }

  function Chroma(s: real, v: real): real { v * s }

  function Secondary(h: real, c: real): real
  {
    c * (1.0 - Abs(FMod(h / 60.0, 2.0) - 1.0))
  }

  /** The sector formula shared by both renderers, scaled to `[0, 255]`:
      `((r' + m) * 255, (g' + m) * 255, (b' + m) * 255)`. */
  function HsvScaled(h: real, s: real, v: real): Channels
  {
    var c := Chroma(s, v);
    var m := v - c;
    var p := SectorPrimes(h, c, Secondary(h, c));
    Channels((p.r + m) * 255.0, (p.g + m) * 255.0, (p.b + m) * 255.0)
  }

  /** Rust's saturating `as u8` cast of a finite value. */
  function AsU8(t: real): (b: Byte)
    ensures 0.0 <= t < 256.0 ==> b as real <= t < b as real + 1.0
  {
    if t <= 0.0 then 0 else if t >= 255.0 then 255 else t.Floor
  }

  /** The store of a finite value into a `Uint8ClampedArray`: clamp to
      `[0, 255]`, then round to nearest with ties to even. */
  function ClampToUint8(t: real): (b: Byte)
    ensures 0.0 <= t <= 255.0 ==> t - 0.5 <= b as real <= t + 0.5
  {
    if t <= 0.0 then 0
    else if t >= 255.0 then 255
    else
      var f := t.Floor;
      if t - f as real < 0.5 then f
      else if t - f as real > 0.5 then f + 1
      else if f % 2 == 0 then f
      else f + 1
  }

  function AsU8Rgb(c: Channels): Rgb
  {
    Rgb(AsU8(c.r), AsU8(c.g), AsU8(c.b))
  }

  function ClampRgb(c: Channels): Rgb
  {
    Rgb(ClampToUint8(c.r), ClampToUint8(c.g), ClampToUint8(c.b))
  }

  /** `hsv_to_rgb` of the Rust renderer. */
  function HsvToRgb(h: real, s: real, v: real): Rgb
  {
    AsU8Rgb(HsvScaled(h, s, v))
  }

  /** `get_color_components` of the Rust renderer. Defined whenever the source
      does not divide zero by zero. */
  function ColorComponents(iteration: nat, maxIterations: nat): Rgb
    requires iteration == maxIterations || maxIterations > 0
  {
    if iteration == maxIterations then Black
    else HsvToRgb(Hue(iteration, maxIterations), Saturation, Value)
  }

  /** `getColorComponents` of the JavaScript renderer: floating channels,
      converted only when stored into the pixel array. */
  function JsColorComponents(iteration: nat, maxIterations: nat): Channels
    requires iteration == maxIterations || maxIterations > 0
  {
    if iteration == maxIterations then Channels(0.0, 0.0, 0.0)
    else HsvScaled(Hue(iteration, maxIterations), Saturation, Value)
  }

  /** Which renderer paints: they differ only in the byte conversion. */
  datatype Backend = Wasm | Js

  /** The bytes a renderer stores for a pixel of the given iteration count. */
  function Paint(backend: Backend, iteration: nat, maxIterations: nat): Rgb
    requires iteration == maxIterations || maxIterations > 0
  {
    match backend
    case Wasm => ColorComponents(iteration, maxIterations)
    case Js => ClampRgb(JsColorComponents(iteration, maxIterations))
  }

  /** With the fixed saturation and value, every scaled channel of an exterior
      hue lies in `[0.18 * 255, 0.9 * 255] = [45.9, 229.5]`. */
  lemma ScaledChannelBounds(h: real)
    requires 0.0 <= h < 360.0
    ensures var c := HsvScaled(h, Saturation, Value);
      45.9 <= c.r <= 229.5 && 45.9 <= c.g <= 229.5 && 45.9 <= c.b <= 229.5
  {
    FModRange(h / 60.0, 2.0);
    var c := Chroma(Saturation, Value);
    assert c == 0.72;
    var x := Secondary(h, c);
    assert 0.0 <= x <= c;
    var p := SectorPrimes(h, c, x);
    assert p.r in multiset{c, x, 0.0} && p.g in multiset{c, x, 0.0} && p.b in multiset{c, x, 0.0};
  }

  /** A pixel is painted black exactly when its count is the iteration cap:
      for either renderer every exterior channel lies in `[45, 230]`. */
  lemma {:induction false} BlackIffInterior(backend: Backend, iteration: nat, maxIterations: nat)
    requires iteration <= maxIterations
    ensures Paint(backend, iteration, maxIterations) == Black <==> iteration == maxIterations
    ensures iteration < maxIterations ==>
      var p := Paint(backend, iteration, maxIterations);
      45 <= p.r <= 230 && 45 <= p.g <= 230 && 45 <= p.b <= 230
  {
    if iteration < maxIterations {
      HueRange(iteration, maxIterations);
      ScaledChannelBounds(Hue(iteration, maxIterations));
    }
  }

  /** The two renderers store channels that differ by at most one: the Rust
      cast truncates, the clamped array rounds to nearest. */
  lemma {:induction false} BackendsDifferByAtMostOne(iteration: nat, maxIterations: nat)
    requires iteration <= maxIterations
    ensures var w, j := Paint(Wasm, iteration, maxIterations), Paint(Js, iteration, maxIterations);
      0 <= j.r as int - w.r as int <= 1 && 0 <= j.g as int - w.g as int <= 1 && 0 <= j.b as int - w.b as int <= 1
  {
    if iteration < maxIterations {
      HueRange(iteration, maxIterations);
      ScaledChannelBounds(Hue(iteration, maxIterations));
    }
  }
}
