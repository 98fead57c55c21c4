/** Integer rectangles and allocation records of the runtime texture atlas. */
module Geometry {

  /** An axis-aligned rectangle on a page: origin (x, y), extent width × height.
      The C# class is only ever mutated on a freshly built object before it is shared,
      so an immutable value models it; the datatype constructor stores its four
      arguments unchanged. */
  datatype IntegerRect = IntegerRect(x: int, y: int, width: int, height: int)
  {
    /** The upper edge. */
    function Top(): (t: int)
      ensures t - height == y
      ensures height >= 0 ==> y <= t
    {
      y + height
    }

    /** The right edge. */
    function Right(): (r: int)
      ensures r - width == x
      ensures width >= 0 ==> x <= r
    {
      x + width
    }

    /** The area, as the packing strategy computes it. */
    function Area(): int
    {
      height * width
    }
  }

  /** The zero rectangle returned when an insertion is refused. */
  const ZeroRect := IntegerRect(0, 0, 0, 0)

  /** An allocation record: the owning page, the number of live references and the
      placed (unpadded) rectangle.  The item's name is not part of the record; it is
      the key under which the atlas stores it.  Unity's float `Rect` is built from
      integers and read back exactly, so it is an integer rectangle here. */
  datatype AtlasRegion = AtlasRegion(pageIndex: int, refCount: int, region: IntegerRect)

  /** Point (px, py) is a pixel cell of `r`. */
  predicate Covers(r: IntegerRect, px: int, py: int)
  {
    r.x <= px < r.Right() && r.y <= py < r.Top()
  }

  /** `r` lies inside a page of the given size and has no negative extent. */
  predicate InsidePage(r: IntegerRect, pageWidth: int, pageHeight: int)
  {
    0 <= r.x && 0 <= r.y && 0 <= r.width && 0 <= r.height &&
    r.Right() <= pageWidth && r.Top() <= pageHeight
  }

  /** A rectangle inside a page has an area of at most the page's area. */
  lemma InsidePageArea(r: IntegerRect, pageWidth: int, pageHeight: int)
    requires InsidePage(r, pageWidth, pageHeight)
    ensures 0 <= r.Area() <= pageWidth * pageHeight
  {
    assert r.width <= pageWidth && r.height <= pageHeight;
    MulMonotone(r.height, r.width, pageHeight, pageWidth);
  }

  lemma MulMonotone(a: int, b: int, c: int, d: int)
    requires 0 <= a <= c && 0 <= b <= d
    ensures 0 <= a * b <= c * d
  {
    assert a * b <= c * b;
    assert c * b <= c * d;
  }
}
