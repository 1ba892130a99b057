/** The escape-time kernel shared by both renderers: the map from a pixel to a
    point of the complex plane, the cardioid / period-2 bulb short-circuit and
    the iteration of `z <- z * z + c` from `z = 0`. Floating-point values are
    exact reals here. */
module Escape {

  datatype Complex = Complex(re: real, im: real)

  /** The parameters of one render request. `bailoutSq` is the squared escape
      radius (`bailout_sq` in Rust, `bailoutRadius * bailoutRadius` in JavaScript). */
  datatype View = View(width: nat, height: nat, centerX: real, centerY: real,
                       scale: real, maxIterations: nat, bailoutSq: real)

  /** A view whose pixel coordinates can be mapped: `width / height` and
      `x / width` are finite. */
  predicate Mappable(v: View)
  {
    v.width > 0 && v.height > 0
  }

  function Aspect(v: View): real
    requires v.height > 0
  {
    v.width as real / v.height as real
  }

  /** `cx = centerX + (x / width - 0.5) * scale * aspect`,
      `cy = centerY + (y / height - 0.5) * scale`. */
  function PlanePoint(v: View, x: int, y: int): Complex
    requires Mappable(v)
  {
    Complex(v.centerX + (x as real / v.width as real - 0.5) * v.scale * Aspect(v),
            v.centerY + (y as real / v.height as real - 0.5) * v.scale)
  }

  /** The mapping as the renderers compute it, with the aspect precomputed. */
  lemma PlanePointParts(v: View, x: int, y: int, aspect: real, cx: real, cy: real)
    requires Mappable(v) && aspect == v.width as real / v.height as real
    requires cx == v.centerX + (x as real / v.width as real - 0.5) * v.scale * aspect
    requires cy == v.centerY + (y as real / v.height as real - 0.5) * v.scale
    ensures PlanePoint(v, x, y) == Complex(cx, cy)
  {
  }

  function Mag2(z: Complex): real
  {
    z.re * z.re + z.im * z.im
  }

  /** One step `z <- z * z + c`, written out on the real and imaginary parts. */
  function Step(c: Complex, z: Complex): Complex
  {
    Complex(z.re * z.re - z.im * z.im + c.re, 2.0 * z.re * z.im + c.im)
  }

  /** `z_n` of the orbit of `c`, from `z_0 = 0`. */
  function Orbit(c: Complex, n: nat): Complex
  {
    if n == 0 then Complex(0.0, 0.0) else Step(c, Orbit(c, n - 1))
  }

  /** The closed-form test for the period-2 bulb (`|c + 1|^2 < 1/16`) and the
      main cardioid (with `q = |c - 1/4|^2`). */
  predicate InCardioidOrBulb(c: Complex)
  {
    var q := Mag2(Complex(c.re - 0.25, c.im));
    Mag2(Complex(c.re + 1.0, c.im)) < 0.0625
    || q * (q + (c.re - 0.25)) < 0.25 * c.im * c.im
  }

  /** The count the escape loop of `get_pixel_color` / `getPixelColor` reaches
      from a state `(z, n)`: `n` once the cap is reached or `z` is outside the
      bailout circle, and otherwise the count from the next state. */
  function EscapeFrom(c: Complex, z: Complex, n: nat, maxIterations: nat, bailoutSq: real): nat
    decreases maxIterations - n
  {
    if n >= maxIterations || Mag2(z) > bailoutSq then n
    else EscapeFrom(c, Step(c, z), n + 1, maxIterations, bailoutSq)
  }

  /** The iteration count of `get_pixel_color` / `getPixelColor` for the point `c`. */
  function IterationCount(c: Complex, maxIterations: nat, bailoutSq: real): nat
  {
    if InCardioidOrBulb(c) then maxIterations
    else EscapeFrom(c, Complex(0.0, 0.0), 0, maxIterations, bailoutSq)
  }

  /** The iteration count of pixel `(x, y)` of the view. */
  function IterAt(v: View, x: int, y: int): nat
    requires Mappable(v)
  {
    IterationCount(PlanePoint(v, x, y), v.maxIterations, v.bailoutSq)
  }

  /** Started on the orbit at step `n`, the loop stops at the first step from
      `n` on whose `z` is outside the bailout circle, or at the cap. */
  lemma {:induction false} EscapeFromMeaning(c: Complex, n: nat, maxIterations: nat, bailoutSq: real)
    requires n <= maxIterations
    ensures var e := EscapeFrom(c, Orbit(c, n), n, maxIterations, bailoutSq);
      n <= e <= maxIterations
      && (forall k :: n <= k < e ==> Mag2(Orbit(c, k)) <= bailoutSq)
      && (e < maxIterations ==> Mag2(Orbit(c, e)) > bailoutSq)
    decreases maxIterations - n
  {
    if n < maxIterations && Mag2(Orbit(c, n)) <= bailoutSq {
      assert Step(c, Orbit(c, n)) == Orbit(c, n + 1);
      EscapeFromMeaning(c, n + 1, maxIterations, bailoutSq);
    }
  }

  /** What an iteration count means: it never exceeds the cap; a point that
      passes the cardioid / bulb test gets the cap; for any other point the
      count `n` is such that `z_0 .. z_{n-1}` stay inside the bailout circle,
      and a count below the cap means `z_n` left it. */
  lemma {:induction false} IterationCountMeaning(c: Complex, maxIterations: nat, bailoutSq: real)
    ensures IterationCount(c, maxIterations, bailoutSq) <= maxIterations
    ensures InCardioidOrBulb(c) ==> IterationCount(c, maxIterations, bailoutSq) == maxIterations
    ensures !InCardioidOrBulb(c) ==>
      var n := IterationCount(c, maxIterations, bailoutSq);
      (forall k :: 0 <= k < n ==> Mag2(Orbit(c, k)) <= bailoutSq)
      && (n < maxIterations ==> Mag2(Orbit(c, n)) > bailoutSq)
  {
    EscapeFromMeaning(c, 0, maxIterations, bailoutSq);
  }

  lemma IterAtBound(v: View, x: int, y: int)
    requires Mappable(v)
    ensures IterAt(v, x, y) <= v.maxIterations
    ensures InCardioidOrBulb(PlanePoint(v, x, y)) ==> IterAt(v, x, y) == v.maxIterations
  {
    IterationCountMeaning(PlanePoint(v, x, y), v.maxIterations, v.bailoutSq);
  }

  /** One turn of the escape loop, on the variables the source updates. */
  lemma EscapeFromStep(c: Complex, zx: real, zy: real, n: nat, maxIterations: nat, bailoutSq: real,
                       nextZx: real, nextZy: real)
    requires zx * zx + zy * zy <= bailoutSq && n < maxIterations
    requires nextZx == zx * zx - zy * zy + c.re && nextZy == 2.0 * zx * zy + c.im
    ensures EscapeFrom(c, Complex(zx, zy), n, maxIterations, bailoutSq)
         == EscapeFrom(c, Complex(nextZx, nextZy), n + 1, maxIterations, bailoutSq)
  {
    assert Mag2(Complex(zx, zy)) <= bailoutSq;
    assert Step(c, Complex(zx, zy)) == Complex(nextZx, nextZy);
  }

  /** The exit of the escape loop. */
  lemma EscapeFromStop(c: Complex, zx: real, zy: real, n: nat, maxIterations: nat, bailoutSq: real)
    requires n >= maxIterations || zx * zx + zy * zy > bailoutSq
    ensures EscapeFrom(c, Complex(zx, zy), n, maxIterations, bailoutSq) == n
  {
    assert n >= maxIterations || Mag2(Complex(zx, zy)) > bailoutSq;
  }

  /** The test as the source writes it, with `q` computed first. */
  lemma CardioidTest(c: Complex, q: real)
    requires q == (c.re - 0.25) * (c.re - 0.25) + c.im * c.im
    ensures InCardioidOrBulb(c)
        <==> (c.re + 1.0) * (c.re + 1.0) + c.im * c.im < 0.0625 || q * (q + (c.re - 0.25)) < 0.25 * c.im * c.im
  {
  }

  /** The cardioid test followed by the escape loop of `get_pixel_color` /
      `getPixelColor`. */
  method CountIterations(c: Complex, maxIterations: nat, bailoutSq: real) returns (iteration: nat)
    ensures iteration <= maxIterations && iteration == IterationCount(c, maxIterations, bailoutSq)
  {
    iteration := 0;
    var q := (c.re - 0.25) * (c.re - 0.25) + c.im * c.im;
    CardioidTest(c, q);
    if (c.re + 1.0) * (c.re + 1.0) + c.im * c.im < 0.0625 || q * (q + (c.re - 0.25)) < 0.25 * c.im * c.im {
      iteration := maxIterations;
    } else {
      var zx, zy := 0.0, 0.0;
      while zx * zx + zy * zy <= bailoutSq && iteration < maxIterations
        invariant EscapeFrom(c, Complex(zx, zy), iteration, maxIterations, bailoutSq)
               == EscapeFrom(c, Complex(0.0, 0.0), 0, maxIterations, bailoutSq)
        decreases maxIterations - iteration
      {
        var tempZx := zx * zx - zy * zy + c.re;
        var nextZy := 2.0 * zx * zy + c.im;
        EscapeFromStep(c, zx, zy, iteration, maxIterations, bailoutSq, tempZx, nextZy);
        zy := nextZy;
        zx := tempZx;
        iteration := iteration + 1;
      }
      EscapeFromStop(c, zx, zy, iteration, maxIterations, bailoutSq);
    }
    IterationCountMeaning(c, maxIterations, bailoutSq);
  }

  /** The uncached part of `get_pixel_color` / `getPixelColor`: map the pixel
      to the plane, then count. */
  method PixelCount(v: View, aspect: real, x: int, y: int) returns (iteration: nat)
    requires Mappable(v) && aspect == v.width as real / v.height as real
    ensures iteration == IterAt(v, x, y) && iteration <= v.maxIterations
  {
    var cx := v.centerX + (x as real / v.width as real - 0.5) * v.scale * aspect;
    var cy := v.centerY + (y as real / v.height as real - 0.5) * v.scale;
    PlanePointParts(v, x, y, aspect, cx, cy);
    iteration := CountIterations(Complex(cx, cy), v.maxIterations, v.bailoutSq);
    IterAtBound(v, x, y);
  }

  /** `z = 0` is a fixed point of the orbit of `c = 0`, so the loop started
      there runs to the cap when the bailout is non-negative. */
  lemma {:induction false} OriginStays(n: nat, maxIterations: nat, bailoutSq: real)
    requires bailoutSq >= 0.0 && n <= maxIterations
    ensures EscapeFrom(Complex(0.0, 0.0), Complex(0.0, 0.0), n, maxIterations, bailoutSq) == maxIterations
    decreases maxIterations - n
  {
    if n < maxIterations {
      OriginStays(n + 1, maxIterations, bailoutSq);
    }
  }

  /** `c = 0` gets the cap, both through the short-circuit and, for any
      non-negative bailout, through the escape loop alone. */
  lemma OriginIsInterior(maxIterations: nat, bailoutSq: real)
    requires bailoutSq >= 0.0
    ensures IterationCount(Complex(0.0, 0.0), maxIterations, bailoutSq) == maxIterations
    ensures EscapeFrom(Complex(0.0, 0.0), Complex(0.0, 0.0), 0, maxIterations, bailoutSq) == maxIterations
  {
    OriginStays(0, maxIterations, bailoutSq);
  }

  /** For even dimensions the pixel `(width / 2, height / 2)` maps to the
      centre of the view. */
  lemma CentrePixel(v: View)
    requires Mappable(v) && v.width % 2 == 0 && v.height % 2 == 0
    ensures PlanePoint(v, v.width / 2, v.height / 2) == Complex(v.centerX, v.centerY)
  {
    assert (v.width / 2) as real / v.width as real == 0.5;
    assert (v.height / 2) as real / v.height as real == 0.5;
  }
}
