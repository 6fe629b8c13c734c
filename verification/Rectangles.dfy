/**
 Rectangles of pixels and the overlap test with thresholds (rectangle, test_box_overlap).
 */
module Rectangles {

  /** A rectangle of pixels; all four sides belong to it. */
  datatype Rectangle = Rectangle(left: int, top: int, right: int, bottom: int) {
    predicate IsEmpty() {
      top > bottom || left > right
    }

    function Area(): nat {
      if IsEmpty() then 0 else (right - left + 1) * (bottom - top + 1)
    }

    function Intersect(rhs: Rectangle): Rectangle {
      Rectangle(Max(left, rhs.left), Max(top, rhs.top), Min(right, rhs.right), Min(bottom, rhs.bottom))
    }

    /** The smallest rectangle that contains both. */
    function Plus(rhs: Rectangle): Rectangle {
      if rhs.IsEmpty() then this
      else if IsEmpty() then rhs
      else Rectangle(Min(left, rhs.left), Min(top, rhs.top), Max(right, rhs.right), Max(bottom, rhs.bottom))
    }
  }

  function Max(x: int, y: int): int {
    if x < y then y else x
  }

  function Min(x: int, y: int): int {
    if x < y then x else y
  }

  /** x / y > threshold, for thresholds given in percent. */
  predicate MoreThan(x: nat, y: nat, percent: nat) {
    100 * x > percent * y
  }

  /** test_box_overlap(0.50, 0.95), with exact quotients. */
  predicate TestBoxOverlap(a: Rectangle, b: Rectangle) {
    var inner := a.Intersect(b).Area();
    && inner != 0
    && (MoreThan(inner, a.Plus(b).Area(), 50) || MoreThan(inner, a.Area(), 95) || MoreThan(inner, b.Area(), 95))
  }

  // ---------- in terms of pixels ----------

  ghost function Pixels(r: Rectangle): set<(int, int)> {
    set x: int, y: int | r.left <= x <= r.right && r.top <= y <= r.bottom :: (x, y)
  }

  lemma {:induction false} ColumnCount(x: int, top: int, bottom: int)
    requires top - 1 <= bottom
    ensures |Pixels(Rectangle(x, top, x, bottom))| == bottom - top + 1
    decreases bottom - top
  {
    var r := Rectangle(x, top, x, bottom);
    if top <= bottom {
      ColumnCount(x, top, bottom - 1);
      assert Pixels(r) == Pixels(r.(bottom := bottom - 1)) + {(x, bottom)};
    } else {
      assert Pixels(r) == {};
    }
  }

  /** The area is the number of pixels. */
  lemma {:induction false} AreaIsPixelCount(r: Rectangle)
    ensures |Pixels(r)| == r.Area()
    decreases r.right - r.left
  {
    if r.IsEmpty() {
      assert Pixels(r) == {};
    } else {
      var others, column := r.(right := r.right - 1), r.(left := r.right);
      ColumnCount(r.right, r.top, r.bottom);
      AreaIsPixelCount(others);
      assert Pixels(r) == Pixels(others) + Pixels(column);
      assert Pixels(others) !! Pixels(column);
      OneMoreColumn(r.right - r.left, r.bottom - r.top + 1);
    }
  }

  lemma OneMoreColumn(w: nat, h: nat)
    ensures (w + 1) * h == w * h + h
  {
  }

  lemma IntersectPixels(a: Rectangle, b: Rectangle)
    ensures Pixels(a.Intersect(b)) == Pixels(a) * Pixels(b)
  {
  }

  lemma EmptyHasNoPixels(r: Rectangle)
    ensures r.IsEmpty() <==> Pixels(r) == {}
  {
    if !r.IsEmpty() {
      assert (r.left, r.top) in Pixels(r);
    }
  }

  /** The sum of two rectangles contains both, and every rectangle that contains both contains it. */
  lemma PlusIsLeast(a: Rectangle, b: Rectangle, c: Rectangle)
    ensures Pixels(a) + Pixels(b) <= Pixels(a.Plus(b))
    ensures Pixels(a) + Pixels(b) <= Pixels(c) ==> Pixels(a.Plus(b)) <= Pixels(c)
  {
    hide Pixels;
    EmptyHasNoPixels(a);
    EmptyHasNoPixels(b);
    if !a.IsEmpty() && !b.IsEmpty() {
      Within(a, a.Plus(b));
      Within(b, a.Plus(b));
      if Pixels(a) + Pixels(b) <= Pixels(c) {
        Corners(a, c);
        Corners(b, c);
        Within(a.Plus(b), c);
      }
    }
  }

  lemma Within(a: Rectangle, c: Rectangle)
    requires c.left <= a.left && a.right <= c.right && c.top <= a.top && a.bottom <= c.bottom
    ensures Pixels(a) <= Pixels(c)
  {
  }

  lemma Corners(a: Rectangle, c: Rectangle)
    requires !a.IsEmpty() && Pixels(a) <= Pixels(c)
    ensures c.left <= a.left && a.right <= c.right && c.top <= a.top && a.bottom <= c.bottom
  {
    assert (a.left, a.top) in Pixels(a) && (a.right, a.bottom) in Pixels(a);
  }

  /**
   Two rectangles overlap in the sense of the test exactly if the pixels they share are more
   than half of those of their sum, or more than 19 in 20 of those of one of them.
   */
  lemma OverlapInPixels(a: Rectangle, b: Rectangle)
    ensures var shared := |Pixels(a) * Pixels(b)|;
            TestBoxOverlap(a, b) <==>
            || 2 * shared > |Pixels(a.Plus(b))|
            || 20 * shared > 19 * |Pixels(a)|
            || 20 * shared > 19 * |Pixels(b)|
  {
    IntersectPixels(a, b);
    AreaIsPixelCount(a.Intersect(b));
    AreaIsPixelCount(a.Plus(b));
    AreaIsPixelCount(a);
    AreaIsPixelCount(b);
    hide Pixels, Rectangle.Area, Rectangle.Plus, Rectangle.Intersect;
  }

  lemma OverlapSymmetric(a: Rectangle, b: Rectangle)
    ensures TestBoxOverlap(a, b) <==> TestBoxOverlap(b, a)
  {
    OverlapInPixels(a, b);
    OverlapInPixels(b, a);
    assert Pixels(a) * Pixels(b) == Pixels(b) * Pixels(a);
    assert a.Plus(b) == b.Plus(a) || (a.IsEmpty() && b.IsEmpty());
    EmptyHasNoPixels(a);
    EmptyHasNoPixels(b);
  }

  /** A rectangle that lies inside another one overlaps it, unless it is empty. */
  lemma InsideOverlaps(a: Rectangle, b: Rectangle)
    requires Pixels(a) <= Pixels(b) && Pixels(a) != {}
    ensures TestBoxOverlap(a, b) && TestBoxOverlap(b, a)
  {
    OverlapInPixels(a, b);
    OverlapSymmetric(a, b);
    assert Pixels(a) * Pixels(b) == Pixels(a);
  }

  /** Rectangles without a common pixel do not. */
  lemma DisjointDoNotOverlap(a: Rectangle, b: Rectangle)
    requires Pixels(a) !! Pixels(b)
    ensures !TestBoxOverlap(a, b)
  {
    OverlapInPixels(a, b);
    assert Pixels(a) * Pixels(b) == {};
  }
}
