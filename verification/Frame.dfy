/** A whole frame: erase the changed areas, then draw them; and what a drawn frame
    looks like. */
module Frame {
  import opened Basics
  import opened Transform
  import opened ScanlineCache
  import opened PixelWrites
  import opened Renderer
  import opened Picture

  // ---- erasing ----------------------------------------------------------

  /** `now` is `was` with exactly the pixels that satisfy `gone` made blank. */
  ghost predicate ErasedWhere(was: seq<Pixel>, now: seq<Pixel>, gone: int -> bool) {
    && |was| == |now|
    && forall p :: 0 <= p < |was| ==> now[p] == if gone(p) then was[p].(a := 0) else was[p]
  }

  method EraseRun(from: nat, to: nat, pix: array<Pixel>)
    requires from <= to <= pix.Length
    modifies pix
    ensures ErasedWhere(old(pix[..]), pix[..], p => from <= p < to)
  {
    ghost var was := pix[..];
    for i := from to to
      invariant ErasedWhere(was, pix[..], p => from <= p < i)
    {
      pix[i] := pix[i].(a := 0);
    }
  }

  method EraseRow(sc: Scene, row: RowSegments, pix: array<Pixel>)
    requires sc.w > 0 && row.y < sc.h && SegmentsFit(row.segments, sc.w) && pix.Length == sc.w * sc.h
    modifies pix
    ensures ErasedWhere(old(pix[..]), pix[..], p => InRow(sc, row, p))
  {
    ghost var was := pix[..];
    for k := 0 to |row.segments|
      invariant ErasedWhere(was, pix[..], p => InRow(sc, row.(segments := row.segments[..k]), p))
    {
      InsideCanvas(sc, sc.w - 1, row.y);
      EraseRun(row.y * sc.w + row.segments[k].start, row.y * sc.w + row.segments[k].end, pix);
      InRowGrows(sc, row, k);
    }
    assert row.segments[..|row.segments|] == row.segments;
  }

  method EraseRows(sc: Scene, rows: seq<RowSegments>, pix: array<Pixel>)
    requires RowsFit(sc, rows) && pix.Length == sc.w * sc.h
    modifies pix
    ensures ErasedWhere(old(pix[..]), pix[..], p => Visited(sc, rows, p))
  {
    ghost var was := pix[..];
    for i := 0 to |rows|
      invariant ErasedWhere(was, pix[..], p => Visited(sc, rows[..i], p))
    {
      EraseRow(sc, rows[i], pix);
      assert rows[..i + 1] == rows[..i] + [rows[i]];
      VisitedGrows(sc, rows[..i], rows[i]);
    }
    assert rows[..|rows|] == rows;
  }

  method EraseAll(pix: array<Pixel>)
    modifies pix
    ensures ErasedWhere(old(pix[..]), pix[..], p => true)
  {
    EraseRun(0, pix.Length, pix);
  }

  // ---- rendering --------------------------------------------------------

  function AllRows(sc: Scene): seq<RowSegments> {
    seq(sc.h, y requires 0 <= y => RowSegments(y, [Segment(0, sc.w)]))
  }

  lemma AllRowsVisitAll(sc: Scene, p: nat)
    requires sc.w > 0 && p < sc.w * sc.h
    ensures RowsFit(sc, AllRows(sc)) && Visited(sc, AllRows(sc), p)
  {
    var y := p / sc.w;
    PixelIsInside(p, sc.w, sc.h);
    assert InSegment(sc, AllRows(sc)[y], 0, p);
    assert InRow(sc, AllRows(sc)[y], p);
  }

  /** A pixel of the canvas after rendering: in a changed area the colour that belongs
      there, or blank if there is none or it is the last of the canvas. */
  ghost predicate Rendered(sc: Scene, was: Pixel, now: Pixel, p: nat, redrawn: bool)
    requires sc.w > 0 && sc.h > 0
  {
    now == if !redrawn then was
           else if p + 1 < sc.w * sc.h && Colour(sc, p).Some? then Colour(sc, p).value
           else was.(a := 0)
  }

  /** `changed` are the rows of the changed areas; the whole canvas is drawn unless
      only the difference is wanted.  From the erasure to the end of the frame every
      pixel is written at most once, and never the last. */
  method RenderImages(sc: Scene, changed: seq<RowSegments>, onlyDelta: bool, pix: array<Pixel>)
    returns (ghost erased: seq<Pixel>, ghost writes: multiset<nat>)
    requires RowsFit(sc, changed) && pix.Length == sc.w * sc.h
    modifies pix
    ensures ErasedWhere(old(pix[..]), erased, p => !onlyDelta || Visited(sc, changed, p))
    ensures WrittenOnce(erased, pix[..], writes)
    ensures var rows := if onlyDelta then changed else AllRows(sc);
            NoneBeginsOnCentres(sc, rows) ==>
              && pix[..] == DrawnFrame(sc, erased, rows)
              && NoHoles(sc, pix[..], p => !onlyDelta || Visited(sc, changed, p))
              && (NotUpscaled(sc) ==> forall p :: 0 <= p < pix.Length ==>
                    Rendered(sc, old(pix[p]), pix[p], p, !onlyDelta || Visited(sc, changed, p)))
  {
    ghost var was := pix[..];
    var rows := changed;
    if onlyDelta {
      EraseRows(sc, changed, pix);
    } else {
      EraseAll(pix);
      rows := AllRows(sc);
    }
    erased := pix[..];
    writes := Renderer.DrawFrame(sc, rows, pix);
    FrameIsRendered(sc, was, erased, changed, onlyDelta);
  }

  /** Drawing what was erased. */
  lemma FrameIsRendered(sc: Scene, was: seq<Pixel>, erased: seq<Pixel>, changed: seq<RowSegments>, onlyDelta: bool)
    requires RowsFit(sc, changed) && |was| == sc.w * sc.h
    requires ErasedWhere(was, erased, p => !onlyDelta || Visited(sc, changed, p))
    ensures var now := DrawnFrame(sc, erased, if onlyDelta then changed else AllRows(sc));
            && NoHoles(sc, now, p => !onlyDelta || Visited(sc, changed, p))
            && (NotUpscaled(sc) ==> forall p :: 0 <= p < |was| ==>
                  Rendered(sc, was[p], now[p], p, !onlyDelta || Visited(sc, changed, p)))
  {
    if onlyDelta {
      FrameIsPictured(sc, erased, changed);
    } else {
      forall p: nat | p < |was|
        ensures Visited(sc, AllRows(sc), p)
      {
        AllRowsVisitAll(sc, p);
      }
      FrameIsPictured(sc, erased, AllRows(sc));
    }
  }

  /** One image with a source pixel for each pixel of the canvas. */
  ghost predicate IsPictureOf(sc: Scene, img: seq<Pixel>) {
    && sc.w > 0 && sc.h > 0 && |img| == sc.w * sc.h
    && sc.images == [Placed(UNIT, sc.w, sc.h, img, 1.0)]
  }

  lemma PixelIsInside(p: nat, w: nat, h: nat)
    requires w > 0 && p < w * h
    ensures p % w < w && p / w < h && p == RowMajor(p / w, p % w, w)
  {
    assert p == (p / w) * w + p % w && (p / w - h) * w == (p / w) * w - h * w;
    Multiple(p / w - h, w);
  }

  lemma PictureIsLaidOverAll(sc: Scene, img: seq<Pixel>)
    requires IsPictureOf(sc, img)
    ensures LaidOver(sc, sc.images[0], 0, 0, sc.w, sc.h)
  {
    ShareEnds(sc.w);
    ShareEnds(sc.h);
  }

  lemma ShareEnds(size: nat)
    requires size > 0
    ensures Share(0, size) == 0.0 && Share(0 + size, size) == 1.0
  {
  }

  lemma PictureShowsItself(sc: Scene, img: seq<Pixel>, p: nat)
    requires IsPictureOf(sc, img) && p < |img|
    ensures Colour(sc, p) == if p + 1 < |img| && img[p].a > 0 then Some(img[p]) else None
  {
    PixelIsInside(p, sc.w, sc.h);
    PictureIsLaidOverAll(sc, img);
    ImageIsCopied(sc, 0, 0, 0, p % sc.w, p / sc.w);
    OneImageShows(sc.images[0], Centre(p % sc.w, sc.w), Centre(p / sc.w, sc.h));
  }

  lemma OneImageShows(im: Placed, x: real, y: real)
    ensures FirstShown([im], x, y) == Shown(im, x, y)
  {
    assert [im][1..] == [];
  }

  lemma PictureBeginsOnNoCentre(sc: Scene, img: seq<Pixel>, rows: seq<RowSegments>)
    requires IsPictureOf(sc, img)
    ensures NoneBeginsOnCentres(sc, rows) && NotUpscaled(sc)
  {
    forall x: nat
      ensures 0.0 < Centre(x, sc.w)
    {
      CentresAscend(x, x, sc.w);
    }
  }

  /** Such an image is copied to the changed areas of the canvas, all but the last pixel. */
  method RenderPicture(sc: Scene, img: seq<Pixel>, changed: seq<RowSegments>, onlyDelta: bool, pix: array<Pixel>)
    requires IsPictureOf(sc, img) && RowsFit(sc, changed) && pix.Length == sc.w * sc.h
    modifies pix
    ensures forall p :: 0 <= p < pix.Length ==>
              pix[p] == if onlyDelta && !Visited(sc, changed, p) then old(pix[p])
                        else if p + 1 < pix.Length && img[p].a > 0 then img[p]
                        else old(pix[p]).(a := 0)
  {
    PictureBeginsOnNoCentre(sc, img, if onlyDelta then changed else AllRows(sc));
    forall p: nat | p < |img|
      ensures Colour(sc, p) == if p + 1 < |img| && img[p].a > 0 then Some(img[p]) else None
    {
      PictureShowsItself(sc, img, p);
    }
    ghost var erased, writes := RenderImages(sc, changed, onlyDelta, pix);
  }
}
