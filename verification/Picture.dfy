/** What a frame of the plain renderer looks like, pixel by pixel. */
module Picture {
  import opened Basics
  import opened Transform
  import opened ScanlineCache
  import opened PixelWrites
  import opened Renderer

  // ---- which pixels have their turn -------------------------------------

  predicate InSpan(sc: Scene, y: nat, start: nat, end: nat, p: int) {
    y * sc.w + start <= p < y * sc.w + end
  }

  predicate InSegment(sc: Scene, row: RowSegments, k: nat, p: int) {
    k < |row.segments| && InSpan(sc, row.y, row.segments[k].start, row.segments[k].end, p)
  }

  ghost predicate InRow(sc: Scene, row: RowSegments, p: int) {
    exists k: nat :: InSegment(sc, row, k, p)
  }

  ghost predicate Visited(sc: Scene, rows: seq<RowSegments>, p: int) {
    exists i :: 0 <= i < |rows| && InRow(sc, rows[i], p)
  }

  lemma InRowGrows(sc: Scene, row: RowSegments, k: nat)
    requires k < |row.segments|
    ensures forall p :: InRow(sc, row.(segments := row.segments[..k + 1]), p) <==>
              InRow(sc, row.(segments := row.segments[..k]), p) || InSegment(sc, row, k, p)
  {
    var less, more := row.(segments := row.segments[..k]), row.(segments := row.segments[..k + 1]);
    forall p
      ensures InRow(sc, more, p) <==> InRow(sc, less, p) || InSegment(sc, row, k, p)
    {
      if InRow(sc, less, p) {
        var j: nat :| InSegment(sc, less, j, p);
        assert InSegment(sc, more, j, p);
      }
      if InSegment(sc, row, k, p) {
        assert InSegment(sc, more, k, p);
      }
      if InRow(sc, more, p) {
        var j: nat :| InSegment(sc, more, j, p);
        assert j < k ==> InSegment(sc, less, j, p);
      }
    }
  }

  lemma VisitedGrows(sc: Scene, rows: seq<RowSegments>, row: RowSegments)
    ensures forall p :: Visited(sc, rows + [row], p) <==> Visited(sc, rows, p) || InRow(sc, row, p)
  {
    var all := rows + [row];
    forall p
      ensures Visited(sc, all, p) <==> Visited(sc, rows, p) || InRow(sc, row, p)
    {
      if Visited(sc, rows, p) {
        var i :| 0 <= i < |rows| && InRow(sc, rows[i], p);
        assert all[i] == rows[i];
      }
      assert all[|rows|] == row;
    }
  }

  // ---- what shows at a pixel --------------------------------------------

  /** The colour of the first image of the list that shows at the point. */
  function FirstShown(list: seq<Placed>, x: real, y: real): (r: Option<Pixel>)
    ensures r.Some? ==> r.value.a > 0
  {
    if list == [] then None
    else if Shown(list[0], x, y).Some? then Shown(list[0], x, y)
    else FirstShown(list[1..], x, y)
  }

  lemma {:induction false} PickIsTheFirstShown(list: seq<Placed>, x: real, y: real, from: nat)
    requires from <= |list|
    ensures var picked := Pick(list, x, y, from);
            FirstShown(list[from..], x, y) == if picked.Some? then Some(picked.value.1) else None
    decreases |list| - from
  {
    if from < |list| {
      assert list[from..][1..] == list[from + 1..];
      PickIsTheFirstShown(list, x, y, from + 1);
    }
  }

  lemma {:induction false} CoveringShowsTheSame(images: seq<Placed>, x: real, y: real)
    ensures FirstShown(Covering(images, x, y), x, y) == FirstShown(images, x, y)
  {
    if images != [] {
      CoveringShowsTheSame(images[1..], x, y);
      var list, rest := Covering(images, x, y), Covering(images[1..], x, y);
      if Covers(images[0], x, y) {
        assert list[0] == images[0] && list[1..] == rest;
      } else {
        assert list == rest && Shown(images[0], x, y).None?;
      }
    }
  }

  /** An image covers the centre of the pixel with a visible source pixel. */
  predicate HasImage(sc: Scene, x: nat, y: nat)
    requires sc.w > 0 && sc.h > 0
  {
    exists i :: 0 <= i < |sc.images| && VisibleAt(sc.images[i], Centre(x, sc.w), Centre(y, sc.h))
  }

  /** And one does so with a source pixel that is not the last of its image. */
  predicate Drawable(sc: Scene, x: nat, y: nat)
    requires sc.w > 0 && sc.h > 0
  {
    exists i :: 0 <= i < |sc.images| && VisibleAt(sc.images[i], Centre(x, sc.w), Centre(y, sc.h))
                && Source(sc.images[i], Centre(x, sc.w), Centre(y, sc.h)).value != |sc.images[i].pix| - 1
  }

  lemma {:induction false} FirstShownFinds(list: seq<Placed>, x: real, y: real)
    ensures FirstShown(list, x, y).Some? <==> exists i :: 0 <= i < |list| && Shown(list[i], x, y).Some?
  {
    if list != [] {
      FirstShownFinds(list[1..], x, y);
      if i :| 0 <= i < |list| && Shown(list[i], x, y).Some? {
        assert i > 0 ==> list[1..][i - 1] == list[i];
      }
      if i :| 0 <= i < |list[1..]| && Shown(list[1..][i], x, y).Some? {
        assert list[i + 1] == list[1..][i];
      }
    }
  }

  /** The colour that belongs at a pixel of the canvas, whatever was there. */
  function Colour(sc: Scene, p: nat): (r: Option<Pixel>)
    requires sc.w > 0 && sc.h > 0
  {
    FirstShown(sc.images, Centre(p % sc.w, sc.w), Centre(p / sc.w, sc.h))
  }

  lemma ColourIffDrawable(sc: Scene, p: nat)
    requires sc.w > 0 && sc.h > 0
    ensures Colour(sc, p).Some? <==> Drawable(sc, p % sc.w, p / sc.w)
  {
    var x, y := Centre(p % sc.w, sc.w), Centre(p / sc.w, sc.h);
    FirstShownFinds(sc.images, x, y);
    assert forall i :: 0 <= i < |sc.images| ==>
             (Shown(sc.images[i], x, y).Some? <==>
                VisibleAt(sc.images[i], x, y) && Source(sc.images[i], x, y).value != |sc.images[i].pix| - 1);
  }

  lemma Multiple(k: int, w: nat)
    requires w > 0
    ensures k >= 1 ==> k * w >= w
    ensures k <= -1 ==> k * w + w <= 0
  {
  }

  lemma ColumnAndRow(x: nat, y: nat, w: nat)
    requires x < w
    ensures (y * w + x) / w == y && (y * w + x) % w == x
  {
    var p := y * w + x;
    var q := p / w;
    assert p == q * w + p % w;
    Multiple(q - y, w);
    assert (q - y) * w == q * w - y * w;
  }

  // ---- what drawing does to the canvas ----------------------------------

  /** Done pixels stay as they are, and so does the last pixel of the canvas. */
  ghost predicate Fills(was: seq<Pixel>, now: seq<Pixel>) {
    && |was| == |now|
    && (forall p :: 0 <= p < |was| && was[p].a > 0 ==> now[p] == was[p])
    && (was != [] ==> now[|was| - 1] == was[|was| - 1])
  }

  /** Of the pixels that had their turn, those that can be drawn are not blank. */
  ghost predicate NoHoles(sc: Scene, now: seq<Pixel>, turn: int -> bool)
    requires sc.w > 0 && sc.h > 0
  {
    forall p :: 0 <= p < |now| - 1 && turn(p) && Colour(sc, p).Some? ==> now[p].a > 0
  }

  /** A blank pixel that had its turn has the colour that belongs there, if there is
      one and it is not the last of the canvas; every other pixel is as before. */
  ghost predicate Shows(sc: Scene, was: seq<Pixel>, now: seq<Pixel>, turn: int -> bool)
    requires sc.w > 0 && sc.h > 0
  {
    && |was| == |now|
    && forall p :: 0 <= p < |was| ==>
         now[p] == if turn(p) && p + 1 < |was| && was[p].a == 0 && Colour(sc, p).Some?
                   then Colour(sc, p).value else was[p]
  }

  /** No source pixel spans more than one pixel of the canvas. */
  predicate NotUpscaled(sc: Scene) {
    forall i :: 0 <= i < |sc.images| ==> sc.images[i].scaling <= 1.0
  }

  ghost predicate Pictured(sc: Scene, was: seq<Pixel>, now: seq<Pixel>, turn: int -> bool)
    requires sc.w > 0 && sc.h > 0
  {
    Fills(was, now) && NoHoles(sc, now, turn) && (NotUpscaled(sc) ==> Shows(sc, was, now, turn))
  }

  lemma PicturedComposes(sc: Scene, a: seq<Pixel>, b: seq<Pixel>, c: seq<Pixel>,
                         first: int -> bool, second: int -> bool, both: int -> bool)
    requires sc.w > 0 && sc.h > 0
    requires Pictured(sc, a, b, first) && Pictured(sc, b, c, second)
    requires forall p :: both(p) <==> first(p) || second(p)
    ensures Pictured(sc, a, c, both)
  {
  }

  lemma NotUpscaledReachesNoFurther(at: nat, scaling: real, tIdx: nat)
    requires scaling <= 1.0
    ensures Extent(at, scaling, tIdx) == 0
  {
    var from, to := at as real * scaling, (at + 1) as real * scaling;
    assert to == from + scaling;
  }

  /** A blank pixel gets, at its turn, the colour of the first of all images that shows
      at its centre, and stays blank when there is none. */
  lemma PointShowsTheFirstImage(sc: Scene, pix: seq<Pixel>, x: nat, y: nat, p: nat)
    requires sc.w > 0 && sc.h > 0 && p == y * sc.w + x && p + 1 < |pix| && pix[p].a == 0
    ensures var shown := FirstShown(sc.images, Centre(x, sc.w), Centre(y, sc.h));
            DrawnPoint(sc, pix, x, y)[p] == if shown.Some? then shown.value else pix[p]
  {
    var xF, yF := Centre(x, sc.w), Centre(y, sc.h);
    var list := Covering(sc.images, xF, yF);
    CoveringShowsTheSame(sc.images, xF, yF);
    PickIsTheFirstShown(list, xF, yF, 0);
    assert list[0..] == list;
    match Pick(list, xF, yF, 0)
    case None =>
    case Some((t, c)) =>
      PaintedFillsBlanks(pix, sc.w, x, y, Extent(x, list[t].scaling, t), Extent(y, list[t].scaling, t) + 1, c);
  }

  /** A pixel that is done draws nothing at its turn, not even on others. */
  lemma DonePointDrawsNothing(sc: Scene, pix: seq<Pixel>, x: nat, y: nat)
    requires sc.w > 0 && sc.h > 0 && y * sc.w + x < |pix| && pix[y * sc.w + x].a > 0
    ensures DrawnPoint(sc, pix, x, y) == pix
  {
  }

  lemma PointFills(sc: Scene, pix: seq<Pixel>, x: nat, y: nat)
    requires sc.w > 0 && sc.h > 0
    ensures Fills(pix, DrawnPoint(sc, pix, x, y))
  {
    var list := Covering(sc.images, Centre(x, sc.w), Centre(y, sc.h));
    match Pick(list, Centre(x, sc.w), Centre(y, sc.h), 0)
    case None =>
    case Some((t, c)) =>
      PaintedFillsBlanks(pix, sc.w, x, y, Extent(x, list[t].scaling, t), Extent(y, list[t].scaling, t) + 1, c);
  }

  /** A pixel is visible after its turn exactly when it was before, or it is not the
      last of the canvas and some image there has more to show than its last pixel. */
  lemma PointIsDrawnIff(sc: Scene, pix: seq<Pixel>, x: nat, y: nat, p: nat)
    requires x < sc.w && sc.h > 0 && p == y * sc.w + x < |pix|
    ensures DrawnPoint(sc, pix, x, y)[p].a > 0 <==> pix[p].a > 0 || (p + 1 < |pix| && Drawable(sc, x, y))
  {
    PointFills(sc, pix, x, y);
    ColumnAndRow(x, y, sc.w);
    ColourIffDrawable(sc, p);
    if p + 1 < |pix| && pix[p].a == 0 {
      PointShowsTheFirstImage(sc, pix, x, y, p);
    }
  }

  lemma {:induction false} CoveringKeepsScale(images: seq<Placed>, x: real, y: real)
    requires forall i :: 0 <= i < |images| ==> images[i].scaling <= 1.0
    ensures forall i :: 0 <= i < |Covering(images, x, y)| ==> Covering(images, x, y)[i].scaling <= 1.0
  {
    if images != [] {
      CoveringKeepsScale(images[1..], x, y);
    }
  }

  lemma PointTouchesNoOther(sc: Scene, pix: seq<Pixel>, x: nat, y: nat, p: nat)
    requires sc.w > 0 && sc.h > 0 && NotUpscaled(sc) && p < |pix| && p != y * sc.w + x
    ensures DrawnPoint(sc, pix, x, y)[p] == pix[p]
  {
    var list := Covering(sc.images, Centre(x, sc.w), Centre(y, sc.h));
    CoveringKeepsScale(sc.images, Centre(x, sc.w), Centre(y, sc.h));
    match Pick(list, Centre(x, sc.w), Centre(y, sc.h), 0)
    case None =>
    case Some((t, c)) =>
      NotUpscaledReachesNoFurther(x, list[t].scaling, t);
      NotUpscaledReachesNoFurther(y, list[t].scaling, t);
      assert Painted(pix, sc.w, x, y, 0, 1, c) == PaintedRun(Painted(pix, sc.w, x, y, 0, 0, c), RowStart(sc.w, x, y, 0), 0, c);
  }

  lemma PointIsPictured(sc: Scene, pix: seq<Pixel>, x: nat, y: nat)
    requires x < sc.w && sc.h > 0
    ensures Pictured(sc, pix, DrawnPoint(sc, pix, x, y), p => p == y * sc.w + x)
  {
    var p, now := y * sc.w + x, DrawnPoint(sc, pix, x, y);
    PointFills(sc, pix, x, y);
    ColumnAndRow(x, y, sc.w);
    if p + 1 < |pix| && pix[p].a == 0 {
      PointShowsTheFirstImage(sc, pix, x, y, p);
    }
    if NotUpscaled(sc) {
      forall q | 0 <= q < |pix| && q != p
        ensures now[q] == pix[q]
      {
        PointTouchesNoOther(sc, pix, x, y, q);
      }
    }
  }

  lemma SpanGrows(sc: Scene, pix: seq<Pixel>, before: seq<Pixel>, y: nat, start: nat, x: nat)
    requires start <= x < sc.w && sc.h > 0
    requires Pictured(sc, pix, before, p => InSpan(sc, y, start, x, p))
    ensures Pictured(sc, pix, DrawnPoint(sc, before, x, y), p => InSpan(sc, y, start, x + 1, p))
  {
    PointIsPictured(sc, before, x, y);
    forall p
      ensures InSpan(sc, y, start, x + 1, p) <==> InSpan(sc, y, start, x, p) || p == y * sc.w + x
    {
    }
    PicturedComposes(sc, pix, before, DrawnPoint(sc, before, x, y),
                     p => InSpan(sc, y, start, x, p), p => p == y * sc.w + x, p => InSpan(sc, y, start, x + 1, p));
  }

  lemma {:induction false} SpanIsPictured(sc: Scene, pix: seq<Pixel>, y: nat, start: nat, end: nat)
    requires sc.w > 0 && sc.h > 0 && end <= sc.w
    ensures Pictured(sc, pix, DrawnSpan(sc, pix, y, start, end), p => InSpan(sc, y, start, end, p))
    decreases end
  {
    if start < end {
      SpanIsPictured(sc, pix, y, start, end - 1);
      SpanGrows(sc, pix, DrawnSpan(sc, pix, y, start, end - 1), y, start, end - 1);
    }
  }

  lemma RowGrows(sc: Scene, pix: seq<Pixel>, before: seq<Pixel>, row: RowSegments, n: nat)
    requires sc.w > 0 && sc.h > 0 && n < |row.segments| && row.segments[n].end <= sc.w
    requires Pictured(sc, pix, before, p => InRow(sc, row.(segments := row.segments[..n]), p))
    ensures Pictured(sc, pix, DrawnSpan(sc, before, row.y, row.segments[n].start, row.segments[n].end),
                     p => InRow(sc, row.(segments := row.segments[..n + 1]), p))
  {
    var less, more := row.(segments := row.segments[..n]), row.(segments := row.segments[..n + 1]);
    var last := row.segments[n];
    SpanIsPictured(sc, before, row.y, last.start, last.end);
    InRowGrows(sc, row, n);
    forall p
      ensures InRow(sc, more, p) <==> InRow(sc, less, p) || InSpan(sc, row.y, last.start, last.end, p)
    {
      assert InSegment(sc, row, n, p) <==> InSpan(sc, row.y, last.start, last.end, p);
    }
    PicturedComposes(sc, pix, before, DrawnSpan(sc, before, row.y, last.start, last.end),
                     p => InRow(sc, less, p), p => InSpan(sc, row.y, last.start, last.end, p), p => InRow(sc, more, p));
  }

  lemma {:induction false} RowIsPictured(sc: Scene, pix: seq<Pixel>, row: RowSegments, n: nat)
    requires sc.w > 0 && sc.h > 0 && SegmentsFit(row.segments, sc.w) && n <= |row.segments|
    ensures Pictured(sc, pix, DrawnRow(sc, pix, row.y, row.segments[..n]),
                     p => InRow(sc, row.(segments := row.segments[..n]), p))
  {
    if n > 0 {
      RowIsPictured(sc, pix, row, n - 1);
      RowGrows(sc, pix, DrawnRow(sc, pix, row.y, row.segments[..n - 1]), row, n - 1);
      assert row.segments[..n][..n - 1] == row.segments[..n - 1];
    }
  }

  /** A frame changes no visible pixel and not the last one of the canvas, leaves none
      blank of those that had their turn and can be drawn, and is, when no image is
      scaled up, the picture of the first images at the pixels that had their turn. */
  lemma {:induction false} FrameIsPictured(sc: Scene, pix: seq<Pixel>, rows: seq<RowSegments>)
    requires RowsFit(sc, rows)
    ensures Pictured(sc, pix, DrawnFrame(sc, pix, rows), p => Visited(sc, rows, p))
  {
    if rows != [] {
      var n := |rows| - 1;
      FrameIsPictured(sc, pix, rows[..n]);
      var before := DrawnFrame(sc, pix, rows[..n]);
      RowIsPictured(sc, before, rows[n], |rows[n].segments|);
      assert rows[n].segments[..|rows[n].segments|] == rows[n].segments;
      VisitedGrows(sc, rows[..n], rows[n]);
      assert rows[..n] + [rows[n]] == rows;
      PicturedComposes(sc, pix, before, DrawnFrame(sc, pix, rows), p => Visited(sc, rows[..n], p),
                       p => InRow(sc, rows[n], p), p => Visited(sc, rows, p));
    }
  }

  lemma TurnDraws(sc: Scene, was: seq<Pixel>, now: seq<Pixel>, turn: int -> bool, p: nat)
    requires sc.w > 0 && sc.h > 0 && Pictured(sc, was, now, turn)
    requires turn(p) && p < |was| && was[p].a == 0
    ensures Colour(sc, p).Some? && p + 1 != |was| ==> now[p].a > 0
    ensures NotUpscaled(sc) && now[p].a > 0 ==> Colour(sc, p).Some? && p + 1 != |was|
  {
  }

  /** A blank pixel that had its turn is drawn if an image shows more there than its
      last source pixel and it is not the last pixel of the canvas; and only then, when
      no image is scaled up. */
  lemma FrameHasNoHole(sc: Scene, pix: seq<Pixel>, rows: seq<RowSegments>, p: nat)
    requires RowsFit(sc, rows) && Visited(sc, rows, p) && p < |pix| && pix[p].a == 0
    ensures Drawable(sc, p % sc.w, p / sc.w) && p + 1 != |pix| ==> DrawnFrame(sc, pix, rows)[p].a > 0
    ensures NotUpscaled(sc) && DrawnFrame(sc, pix, rows)[p].a > 0 ==>
              Drawable(sc, p % sc.w, p / sc.w) && p + 1 != |pix|
  {
    FrameIsPictured(sc, pix, rows);
    TurnDraws(sc, pix, DrawnFrame(sc, pix, rows), q => Visited(sc, rows, q), p);
    ColourIffDrawable(sc, p);
  }

  // ---- inputs that show the two exceptions ------------------------------

  const UNIT := Rectangle(0.0, 0.0, 1.0, 1.0)

  lemma QuotientBelowOne(h: real, s: real)
    requires h < s && 0.0 < s
    ensures h / s < 1.0
  {
    var q := h / s;
    assert q * s == h;
    assert (1.0 - q) * s > 0.0;
  }

  lemma CentreIsInside(x: nat, size: nat)
    requires x < size
    ensures 0.0 < Centre(x, size) < 1.0
  {
    CentresAscend(x, x, size);
    var s := size as real;
    var h := x as real + 0.5;
    QuotientBelowOne(h, s);
  }

  /** An image of one pixel that covers the whole canvas visibly is drawn nowhere. */
  lemma OnePixelImageIsNeverDrawn(sc: Scene, c: Pixel, pix: seq<Pixel>, rows: seq<RowSegments>, x: nat, y: nat)
    requires x < sc.w && y < sc.h && RowsFit(sc, rows) && c.a > 0
    requires sc.images == [Placed(UNIT, 1, 1, [c], 1.0)]
    ensures Source(sc.images[0], Centre(x, sc.w), Centre(y, sc.h)) == Some(0)
    ensures HasImage(sc, x, y) && DrawnFrame(sc, pix, rows) == pix
  {
    CentreIsInside(x, sc.w);
    CentreIsInside(y, sc.h);
    FrameIsPictured(sc, pix, rows);
    forall p | 0 <= p < |pix|
      ensures DrawnFrame(sc, pix, rows)[p] == pix[p]
    {
      ColourIffDrawable(sc, p);
    }
  }

  /** An image of three pixels shows its middle one at the centre of a canvas of one,
      which is left blank: it is the canvas's last. */
  lemma LastCanvasPixelIsNeverDrawn(c: Pixel, blank: Pixel)
    requires c.a > 0 && blank.a == 0
    ensures var sc := Scene(1, 1, [Placed(UNIT, 3, 1, [c, c, c], 1.0)]);
            && Source(sc.images[0], Centre(0, 1), Centre(0, 1)) == Some(1)
            && Drawable(sc, 0, 0)
            && DrawnFrame(sc, [blank], [RowSegments(0, [Segment(0, 1)])]) == [blank]
  {
    var sc := Scene(1, 1, [Placed(UNIT, 3, 1, [c, c, c], 1.0)]);
    assert VisibleAt(sc.images[0], Centre(0, 1), Centre(0, 1));
    FrameIsPictured(sc, [blank], [RowSegments(0, [Segment(0, 1)])]);
  }

  // ---- what an image looks like -----------------------------------------

  lemma CentreIsTheMiddle(x: nat, size: nat)
    requires size > 0
    ensures 2.0 * Centre(x, size) * size as real == (2 * x + 1) as real
  {
    assert Centre(x, size) * size as real == x as real + 0.5;
  }

  /** Column `i` of `size` is the one at the middle of pixel `x` when they are spread over
      `span` pixels from `from` on. */
  predicate Spread(x: nat, from: nat, span: nat, size: nat, i: nat) {
    from <= x < from + span && i * (2 * span) <= (2 * (x - from) + 1) * size < (i + 1) * (2 * span)
  }

  function Share(x: nat, size: nat): real
    requires size > 0
  {
    x as real / size as real
  }

  lemma ShareTwice(x: nat, size: nat)
    requires size > 0
    ensures Share(x, size) * (2.0 * size as real) == (2 * x) as real
  {
    assert Share(x, size) * size as real == x as real;
  }

  lemma CentreTwice(x: nat, size: nat)
    requires size > 0
    ensures Centre(x, size) * (2.0 * size as real) == (2 * x + 1) as real
  {
    CentreIsTheMiddle(x, size);
  }

  /** Both sides of the comparison brought to whole numbers. */
  lemma WholeComparison(v: real, d: real, t: real, a: int, b: int, i: int)
    requires t > 0.0 && v * t == a as real && d * t == b as real
    requires i * b <= a < (i + 1) * b
    ensures i as real * d <= v < (i + 1) as real * d
  {
    assert i as real * d * t == i as real * (d * t) == (i * b) as real;
    assert (i + 1) as real * d * t == (i + 1) as real * (d * t) == ((i + 1) * b) as real;
    LessTimes(i as real * d, v, t);
    LessTimes(v, (i + 1) as real * d, t);
  }

  lemma SpreadIsPart(x: nat, total: nat, from: nat, span: nat, size: nat, i: nat)
    requires total > 0 && span > 0 && Spread(x, from, span, size, i)
    ensures Share(from, total) < Centre(x, total) < Share(from + span, total)
    ensures PartAt(Centre(x, total), Share(from, total), Share(from + span, total), size, i)
  {
    CentreTwice(x, total);
    ShareTwice(from, total);
    ShareTwice(from + span, total);
    WholePart(Centre(x, total), Share(from, total), Share(from + span, total), 2.0 * total as real,
              2 * x + 1, 2 * from, 2 * (from + span), size, i);
  }

  lemma WholePart(c: real, lo: real, hi: real, t: real, n: int, a: int, b: int, size: nat, i: nat)
    requires t > 0.0 && c * t == n as real && lo * t == a as real && hi * t == b as real
    requires a < n < b && i * (b - a) <= (n - a) * size < (i + 1) * (b - a)
    ensures lo < c < hi && PartAt(c, lo, hi, size, i)
  {
    LessWhenScaled(lo, c, t, a, n);
    LessWhenScaled(c, hi, t, n, b);
    ScaledDifference(lo, hi, t, a, b);
    ScaledDifference(lo, c, t, a, n);
    SizedOffset(c, lo, size, t, n - a);
    var v, d := (c - lo) * size as real, hi - lo;
    WholeComparison(v, d, t, (n - a) * size, b - a, i);
    assert i as real * d <= v < (i + 1) as real * d;
  }

  lemma LessWhenScaled(x: real, y: real, t: real, a: int, b: int)
    requires t > 0.0 && x * t == a as real && y * t == b as real && a < b
    ensures x < y
  {
    LessTimes(x, y, t);
  }

  lemma ScaledDifference(x: real, y: real, t: real, a: int, b: int)
    requires x * t == a as real && y * t == b as real
    ensures (y - x) * t == (b - a) as real && y * t - x * t == (b - a) as real
  {
  }

  lemma SizedOffset(c: real, lo: real, size: nat, t: real, n: int)
    requires c * t - lo * t == n as real
    ensures (c - lo) * size as real * t == (n * size) as real
  {
    assert (c - lo) * size as real * t == (c * t - lo * t) * size as real;
  }

  lemma {:induction false} FirstShownAt(list: seq<Placed>, x: real, y: real, k: nat)
    requires k < |list| && Shown(list[k], x, y).Some?
    requires forall i :: 0 <= i < k ==> Shown(list[i], x, y).None?
    ensures FirstShown(list, x, y) == Shown(list[k], x, y)
  {
    if k > 0 {
      assert Shown(list[0], x, y).None?;
      forall i | 0 <= i < k - 1
        ensures Shown(list[1..][i], x, y).None?
      {
        assert list[1..][i] == list[i + 1];
      }
      FirstShownAt(list[1..], x, y, k - 1);
    }
  }

  /** An image laid over `cw` by `ch` pixels of the canvas from (ox, oy) on. */
  predicate LaidOver(sc: Scene, im: Placed, ox: nat, oy: nat, cw: nat, ch: nat)
    requires sc.w > 0 && sc.h > 0
  {
    && cw > 0 && ch > 0
    && im.to == Rectangle(Share(ox, sc.w), Share(oy, sc.h), Share(ox + cw, sc.w), Share(oy + ch, sc.h))
  }

  /** Where a pixel stands when rows of `width` follow each other. */
  function RowMajor(row: nat, column: nat, width: nat): nat {
    row * width + column
  }

  /** At pixel (x, y) such an image shows the source pixel nearest to its middle, in whole
      numbers; and that is the colour of the canvas there if no image before it shows. */
  lemma NearestSourcePixelShows(sc: Scene, k: nat, ox: nat, oy: nat, cw: nat, ch: nat, x: nat, y: nat, i: nat, j: nat)
    requires x < sc.w && y < sc.h && k < |sc.images| && LaidOver(sc, sc.images[k], ox, oy, cw, ch)
    requires Spread(x, ox, cw, sc.images[k].sizeX, i) && Spread(y, oy, ch, sc.images[k].sizeY, j)
    ensures var im, xF, yF, at := sc.images[k], Centre(x, sc.w), Centre(y, sc.h), RowMajor(j, i, sc.images[k].sizeX);
            && (Shown(im, xF, yF).Some? <==> at + 1 < |im.pix| && im.pix[at].a > 0)
            && (at + 1 < |im.pix| && im.pix[at].a > 0
                && (forall m :: 0 <= m < k ==> Shown(sc.images[m], xF, yF).None?) ==>
                  Colour(sc, RowMajor(y, x, sc.w)) == Some(im.pix[at]))
  {
    var im, xF, yF := sc.images[k], Centre(x, sc.w), Centre(y, sc.h);
    SpreadIsPart(x, sc.w, ox, cw, im.sizeX, i);
    SpreadIsPart(y, sc.h, oy, ch, im.sizeY, j);
    ShowsTheSourcePixel(im, xF, yF, i, j);
    ColumnAndRow(x, y, sc.w);
    if Shown(im, xF, yF).Some? && forall m :: 0 <= m < k ==> Shown(sc.images[m], xF, yF).None? {
      FirstShownAt(sc.images, xF, yF, k);
    }
  }

  /** An image with one source pixel for each pixel of the canvas it is laid over is
      copied there pixel by pixel. */
  lemma ImageIsCopied(sc: Scene, k: nat, ox: nat, oy: nat, x: nat, y: nat)
    requires ox + x < sc.w && oy + y < sc.h && k < |sc.images|
    requires LaidOver(sc, sc.images[k], ox, oy, sc.images[k].sizeX, sc.images[k].sizeY)
    requires x < sc.images[k].sizeX && y < sc.images[k].sizeY
    requires forall m :: 0 <= m < k ==> Shown(sc.images[m], Centre(ox + x, sc.w), Centre(oy + y, sc.h)).None?
    ensures var im, at := sc.images[k], RowMajor(y, x, sc.images[k].sizeX);
            && (Shown(im, Centre(ox + x, sc.w), Centre(oy + y, sc.h)).Some? <==> at + 1 < |im.pix| && im.pix[at].a > 0)
            && (at + 1 < |im.pix| && im.pix[at].a > 0 ==>
                  Colour(sc, RowMajor(oy + y, ox + x, sc.w)) == Some(im.pix[at]))
  {
    var im := sc.images[k];
    SpreadOneToOne(ox + x, ox, im.sizeX);
    SpreadOneToOne(oy + y, oy, im.sizeY);
    NearestSourcePixelShows(sc, k, ox, oy, im.sizeX, im.sizeY, ox + x, oy + y, x, y);
  }

  lemma SpreadOneToOne(x: nat, from: nat, size: nat)
    requires from <= x < from + size
    ensures Spread(x, from, size, size, x - from)
  {
    var i := x - from;
    assert i * (2 * size) == 2 * i * size && (i + 1) * (2 * size) == (2 * i + 2) * size;
  }

  // ---- how far a source pixel reaches -----------------------------------

  function Total(n: nat, taken: nat -> nat): nat {
    if n == 0 then 0 else Total(n - 1, taken) + taken(n - 1)
  }

  lemma {:induction false} DifferencesAddUp(n: nat, taken: nat -> nat, end: nat -> int)
    requires forall at: nat :: taken(at) == end(at + 1) - end(at)
    ensures Total(n, taken) == end(n) - end(0)
  {
    if n > 0 {
      DifferencesAddUp(n - 1, taken, end);
      assert taken(n - 1) == end((n - 1) + 1) - end(n - 1);
    }
  }

  lemma FloorStep(x: real, scaling: real)
    requires 0.0 <= x && 1.0 <= scaling
    ensures (x + scaling).Floor >= x.Floor + 1
  {
  }

  lemma TimesMore(n: nat, scaling: real)
    ensures (n + 1) as real * scaling == n as real * scaling + scaling
  {
    assert (n + 1) as real == n as real + 1.0;
  }

  /** `from` and `to` are the ends of the block on the canvas. */
  lemma BlockEnds(at: nat, scaling: real, from: real, to: real)
    requires from == at as real * scaling && to == (at + 1) as real * scaling
    requires 0.0 <= from && from.Floor + 1 <= to.Floor
    ensures Extent(at, scaling, 0) + 1 == to.Floor - from.Floor
  {
    assert Trunc(from) == from.Floor && Trunc(to) == to.Floor;
  }

  /** What the block of step `at` takes, and where it begins on the canvas. */
  function Taken(at: nat, scaling: real): nat {
    Extent(at, scaling, 0) + 1
  }

  function BlockStart(at: nat, scaling: real): int {
    (at as real * scaling).Floor
  }

  lemma BlockReaches(at: nat, scaling: real)
    requires 1.0 <= scaling
    ensures Taken(at, scaling) == BlockStart(at + 1, scaling) - BlockStart(at, scaling)
  {
    var from, to := at as real * scaling, (at + 1) as real * scaling;
    TimesMore(at, scaling);
    Product(at as real, scaling);
    FloorStep(from, scaling);
    BlockEnds(at, scaling, from, to);
  }

  lemma Product(a: real, b: real)
    requires 0.0 <= a && 0.0 <= b
    ensures 0.0 <= a * b
  {
  }

  /** Blocks of an image that is scaled up follow each other without gap or overlap: `n`
      of them take the scaled `n`, rounded down.  Only the first image of a list has any. */
  lemma BlocksFollowEachOther(n: nat, scaling: real)
    requires 1.0 <= scaling
    ensures Total(n, (at: nat) => Taken(at, scaling)) == (n as real * scaling).Floor
  {
    forall at: nat
      ensures Taken(at, scaling) == BlockStart(at + 1, scaling) - BlockStart(at, scaling)
    {
      BlockReaches(at, scaling);
    }
    DifferencesAddUp(n, (at: nat) => Taken(at, scaling), (at: nat) => BlockStart(at, scaling));
  }

  lemma OnlyTheFirstHasBlocks(at: nat, scaling: real, tIdx: nat)
    requires tIdx != 0
    ensures Extent(at, scaling, tIdx) == 0
  {
  }

  /** At its turn a blank pixel paints a block if the first image that covers it shows
      there, and at most itself otherwise. */
  lemma PointPaintsABlock(sc: Scene, pix: seq<Pixel>, x: nat, y: nat, own: nat, p: nat)
    requires sc.w > 0 && sc.h > 0 && own == y * sc.w + x && own < |pix| && pix[own].a == 0 && p < |pix|
    ensures var xF, yF := Centre(x, sc.w), Centre(y, sc.h);
            var list := Covering(sc.images, xF, yF);
            if list != [] && Shown(list[0], xF, yF).Some? then
              DrawnPoint(sc, pix, x, y)[p]
              == if pix[p].a == 0 && p + 1 < |pix|
                    && InBlock(sc.w, x, y, Extent(x, list[0].scaling, 0), Extent(y, list[0].scaling, 0) + 1, p)
                 then Shown(list[0], xF, yF).value else pix[p]
            else p != own ==> DrawnPoint(sc, pix, x, y)[p] == pix[p]
  {
    var xF, yF := Centre(x, sc.w), Centre(y, sc.h);
    var list := Covering(sc.images, xF, yF);
    match Pick(list, xF, yF, 0)
    case None =>
    case Some((t, c)) =>
      var xE, yE := Extent(x, list[t].scaling, t), Extent(y, list[t].scaling, t);
      PaintedIsTheBlock(pix, sc.w, x, y, xE, yE + 1, c, p);
      if t > 0 {
        OnePixelBlock(sc.w, x, y, p);
      }
  }

  lemma OnePixelBlock(w: nat, x: nat, y: nat, p: int)
    ensures InBlock(w, x, y, 0, 1, p) <==> p == y * w + x
  {
    assert InBlockRow(w, x, y, 0, 1, p, 0) <==> p == y * w + x;
  }
}
