/** The dashboard renderer: the rows of a frame drawn with the scanline cache, and
    the plain renderer it refines. */
module Renderer {
  import opened Basics
  import opened Ordered
  import opened Transform
  import opened ScanlineCache
  import opened PixelWrites

  /** A run of columns [start, end) of a row that has to be redrawn. */
  datatype Segment = Segment(start: nat, end: nat)

  datatype RowSegments = RowSegments(y: nat, segments: seq<Segment>)

  /** A canvas of `w` by `h` pixels and the images on it. */
  datatype Scene = Scene(w: nat, h: nat, images: seq<Placed>)

  predicate SegmentsFit(segs: seq<Segment>, w: nat) {
    && (forall i :: 0 <= i < |segs| ==> segs[i].start <= segs[i].end <= w)
    && (forall i, j :: 0 <= i < j < |segs| ==> segs[i].end <= segs[j].start)
  }

  predicate RowsFit(sc: Scene, rows: seq<RowSegments>) {
    && sc.w > 0 && sc.h > 0
    && forall i :: 0 <= i < |rows| ==> rows[i].y < sc.h && SegmentsFit(rows[i].segments, sc.w)
  }

  function Centre(x: int, size: nat): real
    requires size > 0
  {
    (x as real + 0.5) / size as real
  }

  lemma CentresAscend(x: nat, x': nat, size: nat)
    requires size > 0
    ensures 0.0 < Centre(x, size)
    ensures x < x' ==> Centre(x, size) < Centre(x', size)
  {
    var s := size as real;
    assert Centre(x', size) - Centre(x, size) == (x' as real - x as real) / s;
  }

  /** The first image of the list with a visible pixel at the point. */
  function Pick(list: seq<Placed>, x: real, y: real, from: nat): (r: Option<(nat, Pixel)>)
    ensures r.Some? ==> from <= r.value.0 < |list| && r.value.1.a > 0
    decreases |list| - from
  {
    if from >= |list| then None
    else match Shown(list[from], x, y)
      case Some(c) => Some((from, c))
      case None => Pick(list, x, y, from + 1)
  }

  /** How far one source pixel of the first image in the list reaches. */
  function Extent(at: nat, scaling: real, tIdx: nat): nat {
    if tIdx != 0 then 0
    else
      var e := Trunc((at + 1) as real * scaling) - Trunc(at as real * scaling) - 1;
      if e > 0 then e else 0
  }

  ghost function DrawnFrom(sc: Scene, pix: seq<Pixel>, x: nat, y: nat, list: seq<Placed>): (r: seq<Pixel>)
    requires sc.w > 0 && sc.h > 0
    ensures |r| == |pix|
  {
    match Pick(list, Centre(x, sc.w), Centre(y, sc.h), 0)
    case None => pix
    case Some((t, c)) =>
      Painted(pix, sc.w, x, y, Extent(x, list[t].scaling, t), Extent(y, list[t].scaling, t) + 1, c)
  }

  // ---- the plain renderer: the covering images are looked up at every pixel ----

  ghost function DrawnPoint(sc: Scene, pix: seq<Pixel>, x: nat, y: nat): (r: seq<Pixel>)
    requires sc.w > 0 && sc.h > 0
    ensures |r| == |pix|
  {
    if y * sc.w + x >= |pix| || pix[y * sc.w + x].a > 0 then pix
    else DrawnFrom(sc, pix, x, y, Covering(sc.images, Centre(x, sc.w), Centre(y, sc.h)))
  }

  ghost function DrawnSpan(sc: Scene, pix: seq<Pixel>, y: nat, start: nat, end: nat): (r: seq<Pixel>)
    requires sc.w > 0 && sc.h > 0
    ensures |r| == |pix|
    decreases end
  {
    if end <= start then pix else DrawnPoint(sc, DrawnSpan(sc, pix, y, start, end - 1), end - 1, y)
  }

  ghost function DrawnRow(sc: Scene, pix: seq<Pixel>, y: nat, segs: seq<Segment>): (r: seq<Pixel>)
    requires sc.w > 0 && sc.h > 0
    ensures |r| == |pix|
  {
    if segs == [] then pix
    else
      var last := segs[|segs| - 1];
      DrawnSpan(sc, DrawnRow(sc, pix, y, segs[..|segs| - 1]), y, last.start, last.end)
  }

  ghost function DrawnFrame(sc: Scene, pix: seq<Pixel>, rows: seq<RowSegments>): (r: seq<Pixel>)
    requires sc.w > 0 && sc.h > 0
    ensures |r| == |pix|
  {
    if rows == [] then pix
    else
      var last := rows[|rows| - 1];
      DrawnRow(sc, DrawnFrame(sc, pix, rows[..|rows| - 1]), last.y, last.segments)
  }

  /** No image begins exactly on the centre of a pixel of the segments. */
  ghost predicate NoneBeginsOnCentre(sc: Scene, y: nat, segs: seq<Segment>)
    requires sc.w > 0 && sc.h > 0
  {
    forall k, x :: 0 <= k < |segs| && segs[k].start <= x < segs[k].end ==>
      !BeginsAt(sc.images, Centre(x, sc.w), Centre(y, sc.h))
  }

  ghost predicate NoneBeginsOnCentres(sc: Scene, rows: seq<RowSegments>)
    requires sc.w > 0 && sc.h > 0
  {
    forall i :: 0 <= i < |rows| ==> NoneBeginsOnCentre(sc, rows[i].y, rows[i].segments)
  }

  // ---- the renderer -----------------------------------------------------

  method Boundaries(images: seq<Placed>, y: real) returns (bs: seq<real>)
    ensures BoundariesOf(images, y, bs)
  {
    bs := [0.0];
    for k := 0 to |images|
      invariant 0.0 in bs
      invariant forall i :: 0 <= i < k && OnRow(images[i], y) ==>
        images[i].to.minX in bs && images[i].to.maxX in bs
    {
      if y < images[k].to.minY || y > images[k].to.maxY {
        continue;
      }
      bs := bs + [images[k].to.minX, images[k].to.maxX];
    }
    RealLessIsStrictTotal();
    ghost var all := bs;
    bs := SortSlice(RealLess, bs);
    assert forall b :: b in all ==> b in multiset(bs);
    bs := Compact(bs);
  }

  /** Drops neighbours that are equal, in place. */
  method Compact(sorted: seq<real>) returns (bs: seq<real>)
    requires Ascending(RealLess, sorted) && sorted != []
    ensures Increasing(RealLess, bs)
    ensures forall b :: b in bs <==> b in sorted
  {
    bs := sorted;
    var i, j := 1, 1;
    while i < |bs|
      invariant 1 <= j <= i <= |bs| == |sorted|
      invariant forall k :: i <= k < |sorted| ==> bs[k] == sorted[k]
      invariant Increasing(RealLess, bs[..j])
      invariant bs[j - 1] == sorted[i - 1]
      invariant forall b :: b in bs[..j] <==> b in sorted[..i]
    {
      assert bs[i] == sorted[i] && sorted[..i + 1] == sorted[..i] + [sorted[i]];
      if bs[j - 1] == bs[i] {
        i := i + 1;
        continue;
      }
      ghost var head, b := bs[..j], bs[i];
      assert !RealLess(sorted[i], sorted[i - 1]);
      assert forall k :: 0 <= k < j ==> head[k] <= head[j - 1];
      bs := bs[j := bs[i]];
      j := j + 1;
      i := i + 1;
      assert bs[..j] == head + [b];
    }
    assert sorted[..i] == sorted;
    bs := bs[..j];
  }

  /** Draws one pixel from the list, and says what it wrote. */
  method DrawPixel(sc: Scene, x: nat, y: nat, tImgs: seq<Placed>, pix: array<Pixel>)
    returns (ghost writes: multiset<nat>)
    requires sc.w > 0 && sc.h > 0
    modifies pix
    ensures pix[..] == DrawnFrom(sc, old(pix[..]), x, y, tImgs)
    ensures WrittenOnce(old(pix[..]), pix[..], writes)
  {
    var xF, yF := Centre(x, sc.w), Centre(y, sc.h);
    for tIdx := 0 to |tImgs|
      invariant Pick(tImgs, xF, yF, 0) == Pick(tImgs, xF, yF, tIdx)
      invariant pix[..] == old(pix[..])
    {
      var shown := Shown(tImgs[tIdx], xF, yF);
      if shown.None? {
        continue;
      }
      var xE := Extent(x, tImgs[tIdx].scaling, tIdx);
      var yE := Extent(y, tImgs[tIdx].scaling, tIdx);
      writes := PaintBlock(pix, sc.w, x, y, xE, yE, shown.value);
      return;
    }
    return multiset{};
  }

  method LookUp(images: seq<Placed>, xF: real, yF: real) returns (tImgs: seq<Placed>)
    ensures tImgs == Covering(images, xF, yF)
  {
    tImgs := [];
    for k := 0 to |images|
      invariant tImgs + Covering(images[k..], xF, yF) == Covering(images, xF, yF)
    {
      assert images[k..][1..] == images[k + 1..];
      if !Covers(images[k], xF, yF) {
        continue;
      }
      tImgs := tImgs + [images[k]];
    }
  }

  /** The list for a point to the right of all earlier ones: from the cache while no
      boundary is crossed, looked up again otherwise. */
  method ListAt(sc: Scene, xF: real, yF: real, bs: seq<real>, cache: Cache, ghost at: real)
    returns (now: Cache, ghost at': real)
    requires BoundariesOf(sc.images, yF, bs) && CacheValid(sc.images, yF, bs, cache, at)
    requires 0.0 < xF && (cache.boundaryIdx >= 0 ==> at < xF)
    ensures CacheValid(sc.images, yF, bs, now, at') && at' <= xF && now.boundaryIdx >= 0
    ensures now == Visit(sc.images, yF, bs, cache, xF)
    ensures now.tImgs == if xF > cache.nextSwitchX then Covering(sc.images, xF, yF)
                         else CoveringBefore(sc.images, xF, yF)
  {
    VisitKeepsValid(sc.images, yF, bs, cache, at, xF);
    if xF > cache.nextSwitchX {
      var tImgs := LookUp(sc.images, xF, yF);
      var boundaryIdx := cache.boundaryIdx + 1;
      var nextSwitchX := cache.nextSwitchX;
      if boundaryIdx < |bs| {
        nextSwitchX := bs[boundaryIdx];
      }
      return Cache(tImgs, boundaryIdx, nextSwitchX), xF;
    }
    CacheHit(sc.images, yF, bs, cache, at, xF);
    return cache, at;
  }

  /** The cache was last refreshed at `at`, left of every column from `edge` on. */
  ghost predicate CacheReady(sc: Scene, y: nat, bs: seq<real>, cache: Cache, at: real, edge: nat)
    requires sc.w > 0 && sc.h > 0
  {
    && BoundariesOf(sc.images, Centre(y, sc.h), bs)
    && CacheValid(sc.images, Centre(y, sc.h), bs, cache, at)
    && (cache.boundaryIdx >= 0 ==> edge > 0 && at <= Centre(edge - 1, sc.w))
  }

  /** One point of a row: skipped when done, drawn from the cached list otherwise. */
  method DrawPoint(sc: Scene, x: nat, y: nat, pix: array<Pixel>, bs: seq<real>, cache: Cache, ghost at: real, ghost edge: nat)
    returns (now: Cache, ghost at': real, ghost edge': nat, ghost writes: multiset<nat>)
    requires edge <= x < sc.w && y < sc.h && pix.Length == sc.w * sc.h
    requires CacheReady(sc, y, bs, cache, at, edge)
    modifies pix
    ensures CacheReady(sc, y, bs, now, at', edge') && edge' <= x + 1
    ensures WrittenOnce(old(pix[..]), pix[..], writes)
    ensures !BeginsAt(sc.images, Centre(x, sc.w), Centre(y, sc.h)) ==>
            pix[..] == DrawnPoint(sc, old(pix[..]), x, y)
  {
    InsideCanvas(sc, x, y);
    if pix[y * sc.w + x].a > 0 {
      return cache, at, edge, multiset{};
    }
    var xF, yF := Centre(x, sc.w), Centre(y, sc.h);
    CentresAscend(if edge > 0 then edge - 1 else x, x, sc.w);
    CentresAscend(x, x, sc.w);
    CoveringDiffersIffImageBegins(sc.images, xF, yF);
    now, at' := ListAt(sc, xF, yF, bs, cache, at);
    edge' := x + 1;
    assert CacheReady(sc, y, bs, now, at', edge');
    writes := DrawPixel(sc, x, y, now.tImgs, pix);
  }

  method DrawSegment(sc: Scene, y: nat, seg: Segment, pix: array<Pixel>, bs: seq<real>, cache: Cache, ghost at: real, ghost edge: nat)
    returns (now: Cache, ghost at': real, ghost edge': nat, ghost writes: multiset<nat>)
    requires edge <= seg.start <= seg.end <= sc.w && sc.w > 0 && y < sc.h && pix.Length == sc.w * sc.h
    requires CacheReady(sc, y, bs, cache, at, edge)
    modifies pix
    ensures CacheReady(sc, y, bs, now, at', edge') && edge' <= seg.end
    ensures WrittenOnce(old(pix[..]), pix[..], writes)
    ensures NoneBeginsOnCentre(sc, y, [seg]) ==> pix[..] == DrawnSpan(sc, old(pix[..]), y, seg.start, seg.end)
  {
    ghost var was := pix[..];
    now, at', edge', writes := cache, at, edge, multiset{};
    for x := seg.start to seg.end
      invariant edge' <= x && CacheReady(sc, y, bs, now, at', edge')
      invariant WrittenOnce(was, pix[..], writes)
      invariant NoneBeginsOnCentre(sc, y, [seg]) ==> pix[..] == DrawnSpan(sc, was, y, seg.start, x)
    {
      assert [seg][0] == seg;
      ghost var before := pix[..];
      ghost var more;
      now, at', edge', more := DrawPoint(sc, x, y, pix, bs, now, at', edge');
      WrittenOnceComposes(was, before, pix[..], writes, more);
      writes := writes + more;
    }
  }

  /** `stale` is the list left over from the row before; the first look replaces it. */
  method DrawRow(sc: Scene, y: nat, segs: seq<Segment>, pix: array<Pixel>, stale: seq<Placed>)
    returns (tImgs: seq<Placed>, ghost writes: multiset<nat>)
    requires sc.w > 0 && y < sc.h && SegmentsFit(segs, sc.w) && pix.Length == sc.w * sc.h
    modifies pix
    ensures WrittenOnce(old(pix[..]), pix[..], writes)
    ensures NoneBeginsOnCentre(sc, y, segs) ==> pix[..] == DrawnRow(sc, old(pix[..]), y, segs)
  {
    ghost var was := pix[..];
    var bs := Boundaries(sc.images, Centre(y, sc.h));
    var cache := Cache(stale, -1, -1.0);
    ghost var at := 0.0;
    ghost var edge: nat := 0;
    writes := multiset{};
    for k := 0 to |segs|
      invariant CacheReady(sc, y, bs, cache, at, edge)
      invariant if k == 0 then edge == 0 else edge <= segs[k - 1].end
      invariant WrittenOnce(was, pix[..], writes)
      invariant NoneBeginsOnCentre(sc, y, segs) ==> pix[..] == DrawnRow(sc, was, y, segs[..k])
    {
      assert segs[..k + 1][..k] == segs[..k];
      ghost var before := pix[..];
      ghost var more;
      cache, at, edge, more := DrawSegment(sc, y, segs[k], pix, bs, cache, at, edge);
      WrittenOnceComposes(was, before, pix[..], writes, more);
      writes := writes + more;
    }
    assert segs[..|segs|] == segs;
    tImgs := cache.tImgs;
  }

  lemma InsideCanvas(sc: Scene, x: nat, y: nat)
    requires x < sc.w && y < sc.h
    ensures y * sc.w + x < sc.w * sc.h
  {
    assert y * sc.w <= (sc.h - 1) * sc.w;
  }

  /** Draws the rows of a frame whose changed areas were erased.  Whatever the
      images are, every pixel is written at most once; and when no image begins on
      the centre of a pixel, the frame is that of the plain renderer. */
  method DrawFrame(sc: Scene, rows: seq<RowSegments>, pix: array<Pixel>)
    returns (ghost writes: multiset<nat>)
    requires RowsFit(sc, rows) && pix.Length == sc.w * sc.h
    modifies pix
    ensures WrittenOnce(old(pix[..]), pix[..], writes)
    ensures NoneBeginsOnCentres(sc, rows) ==>
            pix[..] == DrawnFrame(sc, old(pix[..]), rows)
  {
    ghost var was := pix[..];
    var tImgs := [];
    writes := multiset{};
    for n := 0 to |rows|
      invariant WrittenOnce(was, pix[..], writes)
      invariant NoneBeginsOnCentres(sc, rows) ==>
        pix[..] == DrawnFrame(sc, was, rows[..n])
    {
      assert rows[..n + 1][..n] == rows[..n];
      ghost var before := pix[..];
      ghost var more;
      tImgs, more := DrawRow(sc, rows[n].y, rows[n].segments, pix, tImgs);
      WrittenOnceComposes(was, before, pix[..], writes, more);
      writes := writes + more;
    }
    assert rows[..|rows|] == rows;
  }
}
