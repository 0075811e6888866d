/** The per-row cache of the dashboard renderer: the images that cover the current
    point, refreshed only when a boundary is crossed. */
module ScanlineCache {
  import opened Basics
  import opened Ordered
  import opened Transform

  function RealLess(a: real, b: real): bool { a < b }

  lemma RealLessIsStrictTotal()
    ensures StrictTotalOrder(RealLess)
  {
  }

  /** The images that cover a point, in drawing order. */
  function Covering(images: seq<Placed>, x: real, y: real): seq<Placed> {
    if images == [] then []
    else (if Covers(images[0], x, y) then [images[0]] else []) + Covering(images[1..], x, y)
  }

  /** The images that cover the points just left of `x`. */
  function CoveringBefore(images: seq<Placed>, x: real, y: real): seq<Placed> {
    if images == [] then []
    else (if images[0].to.minX < x <= images[0].to.maxX && OnRow(images[0], y) then [images[0]] else [])
         + CoveringBefore(images[1..], x, y)
  }

  /** An image on the row begins exactly at `x`. */
  predicate BeginsAt(images: seq<Placed>, x: real, y: real) {
    exists i :: 0 <= i < |images| && images[i].to.minX == x <= images[i].to.maxX && OnRow(images[i], y)
  }

  lemma {:induction false} CoveringLengths(images: seq<Placed>, x: real, y: real)
    ensures |CoveringBefore(images, x, y)| <= |Covering(images, x, y)|
    ensures |CoveringBefore(images, x, y)| == |Covering(images, x, y)| <==> !BeginsAt(images, x, y)
    ensures !BeginsAt(images, x, y) ==> CoveringBefore(images, x, y) == Covering(images, x, y)
  {
    if images != [] {
      CoveringLengths(images[1..], x, y);
      if BeginsAt(images, x, y) {
        var i :| 0 <= i < |images| && images[i].to.minX == x <= images[i].to.maxX && OnRow(images[i], y);
        assert i > 0 ==> images[1..][i - 1] == images[i];
      }
      if BeginsAt(images[1..], x, y) {
        var i :| 0 <= i < |images[1..]| && images[1..][i].to.minX == x <= images[1..][i].to.maxX && OnRow(images[1..][i], y);
        assert images[i + 1] == images[1..][i];
      }
    }
  }

  /** The two lists differ exactly when an image begins at the point. */
  lemma CoveringDiffersIffImageBegins(images: seq<Placed>, x: real, y: real)
    ensures CoveringBefore(images, x, y) == Covering(images, x, y) <==> !BeginsAt(images, x, y)
  {
    CoveringLengths(images, x, y);
  }

  /** Every left and right edge on the row, and zero, is a boundary. */
  ghost predicate BoundariesOf(images: seq<Placed>, y: real, bs: seq<real>) {
    && Increasing(RealLess, bs)
    && 0.0 in bs
    && forall i :: 0 <= i < |images| && OnRow(images[i], y) ==> images[i].to.minX in bs && images[i].to.maxX in bs
  }

  /** Between two neighbouring boundaries the covering images do not change, and at
      the right one they are still those that were there before it. */
  lemma {:induction false} SameBetweenBoundaries(images: seq<Placed>, y: real, bs: seq<real>, i: nat, x0: real, x: real)
    requires BoundariesOf(images, y, bs)
    requires 0 < i < |bs| && bs[i - 1] < x0 < x <= bs[i]
    ensures Covering(images, x0, y) == CoveringBefore(images, x, y)
  {
    if images != [] {
      var p := images[0];
      forall j | 0 <= j < |images[1..]| && OnRow(images[1..][j], y)
        ensures images[1..][j].to.minX in bs && images[1..][j].to.maxX in bs
      {
        assert images[1..][j] == images[j + 1];
      }
      SameBetweenBoundaries(images[1..], y, bs, i, x0, x);
      if OnRow(p, y) {
        NoBoundaryBetween(bs, i, p.to.minX);
        NoBoundaryBetween(bs, i, p.to.maxX);
      }
    }
  }

  lemma NoBoundaryBetween(bs: seq<real>, i: nat, b: real)
    requires Increasing(RealLess, bs) && b in bs && 0 < i < |bs|
    ensures b <= bs[i - 1] || bs[i] <= b
  {
    var j :| 0 <= j < |bs| && bs[j] == b;
    assert j < i - 1 ==> RealLess(bs[j], bs[i - 1]);
    assert i < j ==> RealLess(bs[i], bs[j]);
  }

  // ---- the cache --------------------------------------------------------

  /** The cached list, the boundary last taken and the point up to which the list serves. */
  datatype Cache = Cache(tImgs: seq<Placed>, boundaryIdx: int, nextSwitchX: real)

  /** `at` is where the list was computed; nothing has been on a new row. */
  ghost predicate CacheValid(images: seq<Placed>, y: real, bs: seq<real>, c: Cache, at: real) {
    && -1 <= c.boundaryIdx && bs != []
    && (c.boundaryIdx == -1 ==> c.nextSwitchX == -1.0)
    && (c.boundaryIdx >= 0 ==>
          && c.tImgs == Covering(images, at, y)
          && at > 0.0
          && c.nextSwitchX == (if c.boundaryIdx < |bs| then bs[c.boundaryIdx] else bs[|bs| - 1])
          && forall i :: 0 <= i < |bs| && i < c.boundaryIdx ==> bs[i] < at)
  }

  const NEW_ROW := Cache([], -1, -1.0)

  /** What one visited point does to the cache. */
  function Visit(images: seq<Placed>, y: real, bs: seq<real>, c: Cache, x: real): Cache {
    if x <= c.nextSwitchX then c
    else
      var idx := c.boundaryIdx + 1;
      Cache(Covering(images, x, y), idx, if 0 <= idx < |bs| then bs[idx] else c.nextSwitchX)
  }

  /** The cache after the points `xs` of a row. */
  function Visits(images: seq<Placed>, y: real, bs: seq<real>, xs: seq<real>): Cache {
    if xs == [] then NEW_ROW
    else Visit(images, y, bs, Visits(images, y, bs, xs[..|xs| - 1]), xs[|xs| - 1])
  }

  /** At a point to the right of all earlier ones, a list served from the cache is
      the list of the images covering the points just left of it: stale exactly
      when an image begins there. */
  lemma CacheHit(images: seq<Placed>, y: real, bs: seq<real>, c: Cache, at: real, x: real)
    requires BoundariesOf(images, y, bs) && CacheValid(images, y, bs, c, at)
    requires c.boundaryIdx >= 0 ==> at < x
    requires 0.0 < x <= c.nextSwitchX
    ensures c.tImgs == CoveringBefore(images, x, y)
    ensures c.tImgs == Covering(images, x, y) <==> !BeginsAt(images, x, y)
  {
    var i := c.boundaryIdx;
    assert i >= 0;
    assert bs[0] <= 0.0 by {
      var z :| 0 <= z < |bs| && bs[z] == 0.0;
      assert z == 0 || RealLess(bs[0], bs[z]);
    }
    assert 0 < i < |bs|;
    SameBetweenBoundaries(images, y, bs, i, at, x);
    CoveringDiffersIffImageBegins(images, x, y);
  }

  /** A visit keeps the cache valid; `at` becomes `x` when the list is refreshed. */
  lemma VisitKeepsValid(images: seq<Placed>, y: real, bs: seq<real>, c: Cache, at: real, x: real)
    requires BoundariesOf(images, y, bs) && CacheValid(images, y, bs, c, at)
    requires 0.0 < x && (c.boundaryIdx >= 0 ==> at < x)
    ensures CacheValid(images, y, bs, Visit(images, y, bs, c, x), if x <= c.nextSwitchX then at else x)
    ensures Visit(images, y, bs, c, x).boundaryIdx >= 0
  {
    var idx := c.boundaryIdx + 1;
    forall i | 0 <= i < |bs| && i < idx && c.nextSwitchX < x
      ensures bs[i] < x
    {
      if i == c.boundaryIdx {
        assert c.nextSwitchX == bs[i];
      }
    }
  }

  lemma {:induction false} VisitsStayValid(images: seq<Placed>, y: real, bs: seq<real>, xs: seq<real>) returns (at: real)
    requires BoundariesOf(images, y, bs)
    requires Increasing(RealLess, xs) && forall i :: 0 <= i < |xs| ==> 0.0 < xs[i]
    ensures CacheValid(images, y, bs, Visits(images, y, bs, xs), at)
    ensures xs == [] <==> Visits(images, y, bs, xs).boundaryIdx == -1
    ensures xs != [] ==> at <= xs[|xs| - 1]
  {
    at := 0.0;
    if xs != [] {
      var n := |xs| - 1;
      var earlier := VisitsStayValid(images, y, bs, xs[..n]);
      assert n > 0 ==> RealLess(xs[n - 1], xs[n]);
      VisitKeepsValid(images, y, bs, Visits(images, y, bs, xs[..n]), earlier, xs[n]);
      at := if xs[n] <= Visits(images, y, bs, xs[..n]).nextSwitchX then earlier else xs[n];
    }
  }

  /** Whichever points of a row are visited, in ascending order and with any gaps,
      the cached list at the last one is the list of the images that cover it,
      unless the list was served from the cache and an image begins right there. */
  lemma CacheRefinesLookup(images: seq<Placed>, y: real, bs: seq<real>, xs: seq<real>, x: real)
    requires BoundariesOf(images, y, bs)
    requires Increasing(RealLess, xs + [x]) && forall i :: 0 <= i <= |xs| ==> 0.0 < (xs + [x])[i]
    ensures var served := x <= Visits(images, y, bs, xs).nextSwitchX;
            Visits(images, y, bs, xs + [x]).tImgs == Covering(images, x, y)
            <==> !(served && BeginsAt(images, x, y))
  {
    var all := xs + [x];
    assert all[..|xs|] == xs;
    forall i, j | 0 <= i < j < |xs|
      ensures RealLess(xs[i], xs[j])
    {
      assert RealLess(all[i], all[j]);
    }
    forall i | 0 <= i < |xs|
      ensures 0.0 < xs[i]
    {
      assert xs[i] == all[i];
    }
    var at := VisitsStayValid(images, y, bs, xs);
    assert 0.0 < all[|xs|];
    if xs != [] {
      assert RealLess(all[|xs| - 1], all[|xs|]);
    }
    if x <= Visits(images, y, bs, xs).nextSwitchX {
      CacheHit(images, y, bs, Visits(images, y, bs, xs), at, x);
    }
  }

  /** An image that begins on the centre of the third of four pixels is missed there. */
  lemma ImageOnCentreIsMissed(p: Placed)
    requires p.to == Rectangle(0.625, 0.0, 1.0, 1.0)
    ensures BoundariesOf([p], 0.5, [0.0, 0.625, 1.0])
    ensures Visits([p], 0.5, [0.0, 0.625, 1.0], [0.125, 0.375, 0.625]).tImgs == []
    ensures Covering([p], 0.625, 0.5) == [p]
  {
    var bs := [0.0, 0.625, 1.0];
    var xs := [0.125, 0.375, 0.625];
    assert xs[..2] == [0.125, 0.375] && xs[..2][..1] == [0.125] && xs[..2][..1][..0] == [];
    assert Covering([p], 0.375, 0.5) == [];
    assert Visits([p], 0.5, bs, xs[..2][..1]) == Cache(Covering([p], 0.125, 0.5), 0, 0.0);
    assert Visits([p], 0.5, bs, xs[..2]) == Cache([], 1, 0.625);
    assert 0.0 in bs && bs[1] in bs && bs[2] in bs;
  }
}
