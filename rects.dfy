/** Pixel rectangles `(x1, y1, x2, y2)` with inclusive bounds, as both renderers
    use them, and the two ways the renderers split a rectangle in four. */
module Rects {

  /** An inclusive rectangle of pixel coordinates. It is empty when `x1 > x2`
      or `y1 > y2`; the JavaScript renderer creates such rectangles. */
  datatype Rect = Rect(x1: int, y1: int, x2: int, y2: int)

  predicate Contains(r: Rect, x: int, y: int)
  {
    r.x1 <= x <= r.x2 && r.y1 <= y <= r.y2
  }

  predicate IsEmpty(r: Rect)
  {
    r.x1 > r.x2 || r.y1 > r.y2
  }

  /** A non-empty rectangle lying inside a `width` x `height` image. */
  predicate InImage(r: Rect, width: int, height: int)
  {
    0 <= r.x1 <= r.x2 < width && 0 <= r.y1 <= r.y2 < height
  }

  /** The pixels `r` may write lie in the image: it is empty or inside it. */
  predicate Drawable(r: Rect, width: int, height: int)
  {
    IsEmpty(r) || InImage(r, width, height)
  }

  /** `inner` lies inside `outer`, bound by bound. */
  predicate SubRect(inner: Rect, outer: Rect)
  {
    outer.x1 <= inner.x1 && inner.x2 <= outer.x2 && outer.y1 <= inner.y1 && inner.y2 <= outer.y2
  }

  /** The whole image, the rectangle both renderers start from. */
  function Full(width: int, height: int): Rect
  {
    Rect(0, 0, width - 1, height - 1)
  }

  /** The guard of the split branch: the rectangle spans more than one pixel
      in some direction. */
  predicate Splittable(r: Rect)
  {
    r.x2 - r.x1 > 0 || r.y2 - r.y1 > 0
  }

  function Max0(n: int): nat
  {
    if n > 0 then n else 0
  }

  /** The termination measure of the subdivision. */
  function Measure(r: Rect): nat
  {
    Max0(r.x2 - r.x1) + Max0(r.y2 - r.y1)
  }

  /** `Math.floor((a + b) / 2)`: Dafny's `/` rounds down for a positive divisor. */
  function JsMid(a: int, b: int): int
  {
    (a + b) / 2
  }

  /** `a + (b - a) / 2` on `u32`, which never underflows since `a <= b`. */
  function RustMid(a: int, b: int): int
    requires a <= b
  {
    a + (b - a) / 2
  }

  lemma MidpointsAgree(a: int, b: int)
    requires a <= b
    ensures RustMid(a, b) == JsMid(a, b)
    ensures a <= JsMid(a, b) <= b
  {
  }

  /** The four children `trace` recurses into, in call order; some may be empty. */
  function Quarters(r: Rect): (qs: seq<Rect>)
    ensures |qs| == 4
  {
    var mx, my := JsMid(r.x1, r.x2), JsMid(r.y1, r.y2);
    [Rect(r.x1, r.y1, mx, my), Rect(mx + 1, r.y1, r.x2, my),
     Rect(r.x1, my + 1, mx, r.y2), Rect(mx + 1, my + 1, r.x2, r.y2)]
  }

  /** The children `render` pushes for a popped rectangle, in push order:
      only the non-empty ones. */
  function RustChildren(r: Rect): seq<Rect>
    requires !IsEmpty(r)
  {
    var mx, my := RustMid(r.x1, r.x2), RustMid(r.y1, r.y2);
    [Rect(r.x1, r.y1, mx, my)]
    + (if mx < r.x2 then [Rect(mx + 1, r.y1, r.x2, my)] else [])
    + (if my < r.y2 then [Rect(r.x1, my + 1, mx, r.y2)] else [])
    + (if mx < r.x2 && my < r.y2 then [Rect(mx + 1, my + 1, r.x2, r.y2)] else [])
  }

  /** The quarters as `trace` writes them, from `midX` and `midY`; they are
      smaller than `r` and drawable when `r` is. */
  lemma JsSplit(r: Rect, midX: int, midY: int, width: int, height: int)
    requires Splittable(r) && midX == (r.x1 + r.x2) / 2 && midY == (r.y1 + r.y2) / 2
    ensures Quarters(r)[0] == Rect(r.x1, r.y1, midX, midY) && Quarters(r)[1] == Rect(midX + 1, r.y1, r.x2, midY)
    ensures Quarters(r)[2] == Rect(r.x1, midY + 1, midX, r.y2) && Quarters(r)[3] == Rect(midX + 1, midY + 1, r.x2, r.y2)
    ensures Measure(Rect(r.x1, r.y1, midX, midY)) < Measure(r) && Measure(Rect(midX + 1, r.y1, r.x2, midY)) < Measure(r)
    ensures Measure(Rect(r.x1, midY + 1, midX, r.y2)) < Measure(r) && Measure(Rect(midX + 1, midY + 1, r.x2, r.y2)) < Measure(r)
    ensures Drawable(r, width, height) ==>
      && Drawable(Rect(r.x1, r.y1, midX, midY), width, height) && Drawable(Rect(midX + 1, r.y1, r.x2, midY), width, height)
      && Drawable(Rect(r.x1, midY + 1, midX, r.y2), width, height) && Drawable(Rect(midX + 1, midY + 1, r.x2, r.y2), width, height)
  {
    QuartersShrink(r, width, height);
    var qs := Quarters(r);
    assert qs[0] == Rect(r.x1, r.y1, midX, midY) && qs[1] == Rect(midX + 1, r.y1, r.x2, midY);
    assert qs[2] == Rect(r.x1, midY + 1, midX, r.y2) && qs[3] == Rect(midX + 1, midY + 1, r.x2, r.y2);
  }

  /** The quarter of `r` on the side of each midpoint where `(x, y)` lies. */
  function Quadrant(r: Rect, x: int, y: int): Rect
  {
    var mx, my := JsMid(r.x1, r.x2), JsMid(r.y1, r.y2);
    Rect(if x <= mx then r.x1 else mx + 1, if y <= my then r.y1 else my + 1,
         if x <= mx then mx else r.x2, if y <= my then my else r.y2)
  }

  /** The four quarters partition the parent: a pixel of the parent lies in
      exactly one of them and a pixel outside it in none. */
  lemma QuartersPartition(r: Rect, x: int, y: int)
    ensures Contains(r, x, y) <==> exists k :: 0 <= k < 4 && Contains(Quarters(r)[k], x, y)
    ensures forall j, k :: 0 <= j < k < 4 && Contains(Quarters(r)[j], x, y) ==> !Contains(Quarters(r)[k], x, y)
    ensures Contains(r, x, y) ==> Contains(Quadrant(r, x, y), x, y) && Quadrant(r, x, y) in Quarters(r)
  {
    var qs := Quarters(r);
    if Contains(r, x, y) {
      var k := if x <= JsMid(r.x1, r.x2) then (if y <= JsMid(r.y1, r.y2) then 0 else 2)
               else (if y <= JsMid(r.y1, r.y2) then 1 else 3);
      assert Contains(qs[k], x, y);
    }
  }

  /** Every quarter of a rectangle that spans more than one pixel has a
      strictly smaller measure, so `trace` terminates; the quarters of a
      drawable rectangle are drawable. */
  lemma {:induction false} QuartersShrink(r: Rect, width: int, height: int)
    requires Splittable(r)
    ensures forall k :: 0 <= k < 4 ==> Measure(Quarters(r)[k]) < Measure(r)
    ensures Drawable(r, width, height) ==> forall k :: 0 <= k < 4 ==> Drawable(Quarters(r)[k], width, height)
  {
    var mx, my := JsMid(r.x1, r.x2), JsMid(r.y1, r.y2);
    HalvesShrink(r.x1, r.x2);
    HalvesShrink(r.y1, r.y2);
    if Drawable(r, width, height) && !IsEmpty(r) {
      MidpointsAgree(r.x1, r.x2);
      MidpointsAgree(r.y1, r.y2);
    }
  }

  /** Splitting `[a, b]` at its floor midpoint gives two spans that are never
      longer, and strictly shorter when `b > a`. */
  lemma HalvesShrink(a: int, b: int)
    ensures Max0(JsMid(a, b) - a) <= Max0(b - a) && Max0(b - (JsMid(a, b) + 1)) <= Max0(b - a)
    ensures b - a > 0 ==> Max0(JsMid(a, b) - a) < b - a && Max0(b - (JsMid(a, b) + 1)) < b - a
    ensures b < a ==> JsMid(a, b) < a && b < JsMid(a, b) + 1
  {
  }

  /** The children `render` pushes partition the popped rectangle: each lies
      inside the image and inside the parent, they are pairwise disjoint, every
      pixel of the parent is in one of them, and each is strictly smaller. */
  lemma RustChildrenPartition(r: Rect, width: int, height: int)
    requires InImage(r, width, height) && Splittable(r)
    ensures 2 <= |RustChildren(r)| <= 4
    ensures forall k :: 0 <= k < |RustChildren(r)| ==>
              InImage(RustChildren(r)[k], width, height) && SubRect(RustChildren(r)[k], r)
              && Measure(RustChildren(r)[k]) < Measure(r)
    ensures forall j, k, x, y :: 0 <= j < k < |RustChildren(r)| && Contains(RustChildren(r)[j], x, y)
              ==> !Contains(RustChildren(r)[k], x, y)
    ensures forall x, y :: Contains(r, x, y) ==>
              exists k :: 0 <= k < |RustChildren(r)| && Contains(RustChildren(r)[k], x, y)
  {
    var cs := RustChildren(r);
    MidpointsAgree(r.x1, r.x2);
    MidpointsAgree(r.y1, r.y2);
    HalvesShrink(r.x1, r.x2);
    HalvesShrink(r.y1, r.y2);
    forall x, y | Contains(r, x, y)
      ensures exists k :: 0 <= k < |cs| && Contains(cs[k], x, y)
    {
      var q := Quadrant(r, x, y);
      assert Contains(q, x, y);
      assert q in cs;
    }
  }

  /** A pixel lying in one of the quarters picks that quarter. */
  lemma QuadrantOf(r: Rect, x: int, y: int, k: int)
    requires 0 <= k < 4 && Contains(Quarters(r)[k], x, y)
    ensures Quadrant(r, x, y) == Quarters(r)[k]
    ensures Contains(r, x, y) && SubRect(Quadrant(r, x, y), r)
  {
  }

  /** The children `render` pushes are the non-empty quarters `trace` recurses into. */
  lemma RustChildrenAreQuarters(r: Rect)
    requires !IsEmpty(r)
    ensures var qs, mx, my := Quarters(r), JsMid(r.x1, r.x2), JsMid(r.y1, r.y2);
      RustChildren(r)
      == [qs[0]] + (if mx < r.x2 then [qs[1]] else []) + (if my < r.y2 then [qs[2]] else [])
         + (if mx < r.x2 && my < r.y2 then [qs[3]] else [])
  {
    MidpointsAgree(r.x1, r.x2);
    MidpointsAgree(r.y1, r.y2);
  }
}
