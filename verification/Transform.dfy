/** An image placed on the unit canvas, and the pixel it shows at a point. */
module Transform {
  import opened Basics

  newtype Byte = x: int | 0 <= x < 256

  datatype Pixel = Pixel(r: Byte, g: Byte, b: Byte, a: Byte)

  datatype Rectangle = Rectangle(minX: real, minY: real, maxX: real, maxY: real)

  /** `pix` holds the source rows one after the other, `sizeX` pixels each.
      `scaling` is how many canvas pixels one source pixel spans. */
  datatype Placed = Placed(to: Rectangle, sizeX: nat, sizeY: nat, pix: seq<Pixel>, scaling: real)

  predicate OnRow(p: Placed, y: real) {
    p.to.minY <= y <= p.to.maxY
  }

  predicate Covers(p: Placed, x: real, y: real) {
    p.to.minX <= x <= p.to.maxX && OnRow(p, y)
  }

  /** A coordinate in the image.  Where the rectangle has no extent the program
      divides zero by zero, which leaves the offset in the image where it is. */
  function Along(v: real, min: real, max: real, size: nat): int
    requires min <= v <= max
  {
    if min == max then 0 else Trunc((v - min) / (max - min) * size as real)
  }

  function Coords(p: Placed, x: real, y: real): Option<(int, int)> {
    if Covers(p, x, y)
    then Some((Along(x, p.to.minX, p.to.maxX, p.sizeX), Along(y, p.to.minY, p.to.maxY, p.sizeY)))
    else None
  }

  /** The index of the source pixel at a point the image covers. */
  function Source(p: Placed, x: real, y: real): Option<int> {
    match Coords(p, x, y)
    case None => None
    case Some((srcX, srcY)) => Some(srcY * p.sizeX + srcX)
  }

  /** The image covers the point with a visible pixel of its own. */
  predicate VisibleAt(p: Placed, x: real, y: real) {
    var at := Source(p, x, y);
    at.Some? && 0 <= at.value < |p.pix| && p.pix[at.value].a > 0
  }

  /** The colour to draw at a point, if any: that of the visible pixel there, unless
      it is the last one of the image, which the bounds test leaves out. */
  function Shown(p: Placed, x: real, y: real): (r: Option<Pixel>)
    ensures r.Some? <==> VisibleAt(p, x, y) && Source(p, x, y).value != |p.pix| - 1
    ensures r.Some? ==> r.value == p.pix[Source(p, x, y).value] && r.value.a > 0
  {
    match Coords(p, x, y)
    case None => None
    case Some((srcX, srcY)) =>
      var at := srcY * p.sizeX + srcX;
      if at < 0 || at + 1 >= |p.pix| || p.pix[at].a == 0 then None else Some(p.pix[at])
  }

  lemma Reordered(q: real, w: real, n: real, a: real)
    requires q * w == a
    ensures q * n * w == a * n
  {
    assert q * n * w == q * w * n;
  }

  lemma LessTimes(a: real, b: real, k: real)
    requires k > 0.0
    ensures a * k <= b * k <==> a <= b
    ensures a * k < b * k <==> a < b
  {
  }

  lemma FloorBetween(u: real, i: int)
    requires i as real <= u < (i + 1) as real
    ensures u.Floor == i
  {
  }

  lemma Bounded(u: real, w: real, m: real, i: int)
    requires w > 0.0 && u * w == m && i as real * w <= m < (i + 1) as real * w
    ensures i as real <= u < (i + 1) as real
  {
    LessTimes(i as real, u, w);
    LessTimes(u, (i + 1) as real, w);
  }

  lemma QuotientBetween(a: real, w: real, n: real, i: int)
    requires w > 0.0 && i as real * w <= a * n < (i + 1) as real * w
    ensures (a / w * n).Floor == i
  {
    var q := a / w;
    assert q * w == a;
    Reordered(q, w, n, a);
    Bounded(q * n, w, a * n, i);
    FloorBetween(q * n, i);
  }

  /** Column `i` of `size` is the one at `v`: the i-th of that many equal parts.  Where
      the rectangle has no extent it is the first. */
  predicate PartAt(v: real, min: real, max: real, size: nat, i: nat) {
    if min < max then i as real * (max - min) <= (v - min) * size as real < (i + 1) as real * (max - min)
    else i == 0
  }

  lemma AlongIsThePart(v: real, min: real, max: real, size: nat, i: nat)
    requires min <= v <= max && PartAt(v, min, max, size, i)
    ensures Along(v, min, max, size) == i
  {
    if min < max {
      QuotientBetween(v - min, max - min, size as real, i);
    }
  }

  /** A covered point shows the source pixel whose part of the rectangle it lies in:
      columns from left to right, rows from top to bottom, one row after the other.  At
      the right edge that is the first pixel of the next row. */
  lemma ShowsTheSourcePixel(p: Placed, x: real, y: real, i: nat, j: nat)
    requires p.to.minX <= x <= p.to.maxX && p.to.minY <= y <= p.to.maxY
    requires PartAt(x, p.to.minX, p.to.maxX, p.sizeX, i) && PartAt(y, p.to.minY, p.to.maxY, p.sizeY, j)
    ensures var at := j * p.sizeX + i;
            && (VisibleAt(p, x, y) <==> at < |p.pix| && p.pix[at].a > 0)
            && Shown(p, x, y) == if at + 1 < |p.pix| && p.pix[at].a > 0 then Some(p.pix[at]) else None
  {
    AlongIsThePart(x, p.to.minX, p.to.maxX, p.sizeX, i);
    AlongIsThePart(y, p.to.minY, p.to.maxY, p.sizeY, j);
  }

  lemma ShowsNothingOutside(p: Placed, x: real, y: real)
    requires !(p.to.minX <= x <= p.to.maxX && p.to.minY <= y <= p.to.maxY)
    ensures Shown(p, x, y) == None && !VisibleAt(p, x, y)
  {
  }
}
