/** Points and rectangles of the two framebuffer drivers. Both keep a min and
    a max corner and test membership inclusively on all four edges; they
    differ only in where `Rect::new` puts the max corner: one past the last
    pixel in `devices::framebuffer` ("exclusive corner"), on the last pixel
    in `drivers::framebuffer` ("inclusive corner", which also refuses an
    empty size). Coordinates are `usize`; their overflow is not modelled. */
module Geometry {
  import opened Common

  datatype Point = Point(x: nat, y: nat)

  /** `From<(usize, usize)> for Point`. */
  function PointFromTuple(t: (nat, nat)): (p: Point)
    ensures p.x == t.0 && p.y == t.1
  {
    Point(t.0, t.1)
  }

  /** `From<[usize; 2]> for Point`. */
  function PointFromArray(a: seq<nat>): (p: Point)
    requires |a| == 2
    ensures p.x == a[0] && p.y == a[1]
  {
    Point(a[0], a[1])
  }

  /** Both conversions build the same point as `Point::new`. */
  lemma PointConversionsAgree(x: nat, y: nat)
    ensures PointFromTuple((x, y)) == Point(x, y)
    ensures PointFromArray([x, y]) == Point(x, y)
  {
  }

  datatype Rect = Rect(min: Point, max: Point)

  /** Every `Rect` the drivers can build has its min corner at or above-left
      of its max corner (the fields are private; `new` and `intersection`
      are the only ways to make one). */
  predicate Ordered(r: Rect) {
    r.min.x <= r.max.x && r.min.y <= r.max.y
  }

  /** `Rect::width` / `Rect::height`: max minus min. */
  function Width(r: Rect): nat
    requires Ordered(r)
  {
    r.max.x - r.min.x
  }

  function Height(r: Rect): nat
    requires Ordered(r)
  {
    r.max.y - r.min.y
  }

  /** `Rect::contains`: inclusive on every edge. */
  predicate Contains(r: Rect, p: Point) {
    r.min.x <= p.x <= r.max.x && r.min.y <= p.y <= r.max.y
  }

  /** `Rect::new` of `devices::framebuffer`: the max corner is
      `(x + width, y + height)`, so the rectangle covers `width + 1` columns
      and `height + 1` rows of points, and its width is `width`. */
  function NewExclusive(x: nat, y: nat, width: nat, height: nat): (r: Rect)
    ensures Ordered(r) && r.min == Point(x, y)
    ensures Width(r) == width && Height(r) == height
    ensures forall p :: Contains(r, p) <==> x <= p.x <= x + width && y <= p.y <= y + height
  {
    Rect(Point(x, y), Point(x + width, y + height))
  }

  const WIDTH_NOT_POSITIVE: string := "width must be strictly positive"
  const HEIGHT_NOT_POSITIVE: string := "height must be strictly positive"

  /** `Rect::new` of `drivers::framebuffer`: asserts a positive size, then
      puts the max corner on the last pixel, so the rectangle covers exactly
      `width` columns and `height` rows, while `width()` reports one less. */
  function NewInclusive(x: nat, y: nat, width: nat, height: nat): (r: Outcome<Rect>)
    ensures r.Ok? <==> width > 0 && height > 0
    ensures width == 0 ==> r == Panic(WIDTH_NOT_POSITIVE)
    ensures width > 0 && height == 0 ==> r == Panic(HEIGHT_NOT_POSITIVE)
    ensures r.Ok? ==> Ordered(r.value) && r.value.min == Point(x, y)
    ensures r.Ok? ==> Width(r.value) == width - 1 && Height(r.value) == height - 1
    ensures r.Ok? ==> forall p :: Contains(r.value, p) <==> x <= p.x < x + width && y <= p.y < y + height
  {
    if width == 0 then Panic(WIDTH_NOT_POSITIVE)
    else if height == 0 then Panic(HEIGHT_NOT_POSITIVE)
    else Ok(Rect(Point(x, y), Point(x + width - 1, y + height - 1)))
  }

  function Max(a: nat, b: nat): nat { if a < b then b else a }
  function Min(a: nat, b: nat): nat { if a < b then a else b }

  /** `Rect::intersection`: the max of the mins and the min of the maxes,
      or None when they cross. The result holds exactly the points both
      inputs hold, and it is None exactly when no point is in both; two
      rectangles that only touch give a degenerate rectangle, not None. */
  function Intersection(a: Rect, b: Rect): (r: Option<Rect>)
    ensures r.Some? ==> Ordered(r.value)
    ensures r.Some? ==> forall p :: Contains(r.value, p) <==> Contains(a, p) && Contains(b, p)
    ensures r.None? <==> forall p :: !(Contains(a, p) && Contains(b, p))
  {
    var left := Max(a.min.x, b.min.x);
    var top := Max(a.min.y, b.min.y);
    var right := Min(a.max.x, b.max.x);
    var bottom := Min(a.max.y, b.max.y);
    if right < left || bottom < top then None
    else
      assert Contains(a, Point(left, top)) && Contains(b, Point(left, top));
      Some(Rect(Point(left, top), Point(right, bottom)))
  }

  /** The intersection does not depend on the order of its arguments, and a
      result lies inside both inputs, corners included. */
  lemma IntersectionCommutes(a: Rect, b: Rect)
    ensures Intersection(a, b) == Intersection(b, a)
    ensures Intersection(a, b).Some? ==>
              && Contains(a, Intersection(a, b).value.min) && Contains(b, Intersection(a, b).value.min)
              && Contains(a, Intersection(a, b).value.max) && Contains(b, Intersection(a, b).value.max)
  {
  }

  /** Rectangles that share only an edge still intersect, in a rectangle of
      width zero. */
  lemma TouchingRectsIntersect()
    ensures Intersection(NewExclusive(0, 0, 5, 5), NewExclusive(5, 0, 5, 5)) == Some(Rect(Point(5, 0), Point(5, 5)))
    ensures Width(Rect(Point(5, 0), Point(5, 5))) == 0
  {
    var a := NewExclusive(0, 0, 5, 5);
    var b := NewExclusive(5, 0, 5, 5);
    assert a == Rect(Point(0, 0), Point(5, 5));
    assert b == Rect(Point(5, 0), Point(10, 5));
    assert Max(a.min.x, b.min.x) == 5 && Max(a.min.y, b.min.y) == 0;
    assert Min(a.max.x, b.max.x) == 5 && Min(a.max.y, b.max.y) == 5;
  }

  /** The `rect_contains` test. */
  lemma RectContainsExample()
    ensures var r := NewExclusive(5, 5, 5, 5);
            && Contains(r, Point(5, 5)) && Contains(r, Point(10, 10))
            && !Contains(r, Point(10, 11)) && !Contains(r, Point(11, 10))
  {
  }

  /** The `rect_intersection` test. */
  lemma RectIntersectionExample()
    ensures var r := NewExclusive(5, 5, 5, 5);
            && Intersection(r, NewExclusive(5, 5, 2, 2)) == Some(NewExclusive(5, 5, 2, 2))
            && Intersection(r, NewExclusive(2, 2, 5, 5)) == Some(NewExclusive(5, 5, 2, 2))
            && Intersection(r, NewExclusive(11, 11, 5, 5)) == None
  {
  }
}
