/** Writes to the canvas under the rule that a pixel with nonzero alpha is done. */
module PixelWrites {
  import opened Basics
  import opened Transform

  /** `writes` counts how often each pixel was written: at most once, only when it
      was blank, never blank afterwards, and never the last of the canvas; all others
      are as before. */
  ghost predicate WrittenOnce(was: seq<Pixel>, now: seq<Pixel>, writes: multiset<nat>) {
    && |was| == |now|
    && (forall p :: p in writes ==> p + 1 < |was|)
    && (forall p :: 0 <= p < |was| ==>
          if p in writes then writes[p] == 1 && was[p].a == 0 && now[p].a > 0 else now[p] == was[p])
  }

  lemma WrittenOnceComposes(a: seq<Pixel>, b: seq<Pixel>, c: seq<Pixel>, w1: multiset<nat>, w2: multiset<nat>)
    requires WrittenOnce(a, b, w1) && WrittenOnce(b, c, w2)
    ensures WrittenOnce(a, c, w1 + w2)
  {
  }

  /** The first pixel of the block's row `i`; the canvas is `w` pixels wide. */
  function RowStart(w: nat, x: nat, y: nat, i: nat): nat {
    (y + i) * w + x
  }

  /** Blank pixels of a run get the colour.  The bounds test leaves out the last
      pixel of the canvas. */
  ghost function PaintedRun(pix: seq<Pixel>, start: nat, xE: nat, c: Pixel): (r: seq<Pixel>)
    ensures |r| == |pix|
  {
    seq(|pix|, p requires 0 <= p < |pix| =>
      if start <= p <= start + xE && p + 1 < |pix| && pix[p].a == 0 then c else pix[p])
  }

  /** A block of `rows` runs of `xE + 1` pixels, one per canvas row; a run may go
      past the canvas edge. */
  ghost function Painted(pix: seq<Pixel>, w: nat, x: nat, y: nat, xE: nat, rows: nat, c: Pixel): (r: seq<Pixel>)
    ensures |r| == |pix|
  {
    if rows == 0 then pix
    else PaintedRun(Painted(pix, w, x, y, xE, rows - 1, c), RowStart(w, x, y, rows - 1), xE, c)
  }

  method PaintRun(pix: array<Pixel>, start: nat, xE: nat, c: Pixel) returns (ghost writes: multiset<nat>)
    requires c.a > 0
    modifies pix
    ensures pix[..] == PaintedRun(old(pix[..]), start, xE, c)
    ensures WrittenOnce(old(pix[..]), pix[..], writes)
  {
    ghost var was := pix[..];
    writes := multiset{};
    var dst := start;
    while dst <= start + xE
      invariant start <= dst <= start + xE + 1
      invariant forall p :: p in writes ==> start <= p < dst
      invariant forall p :: 0 <= p < |was| ==>
        pix[p] == if start <= p < dst && p + 1 < |was| && was[p].a == 0 then c else was[p]
      invariant WrittenOnce(was, pix[..], writes)
    {
      if dst + 1 < pix.Length && !(pix[dst].a > 0) {
        pix[dst] := c;
        writes := writes + multiset{dst};
      }
      dst := dst + 1;
    }
  }

  method PaintBlock(pix: array<Pixel>, w: nat, x: nat, y: nat, xE: nat, yE: nat, c: Pixel)
    returns (ghost writes: multiset<nat>)
    requires c.a > 0
    modifies pix
    ensures pix[..] == Painted(old(pix[..]), w, x, y, xE, yE + 1, c)
    ensures WrittenOnce(old(pix[..]), pix[..], writes)
  {
    ghost var was := pix[..];
    writes := multiset{};
    for i := 0 to yE + 1
      invariant pix[..] == Painted(was, w, x, y, xE, i, c)
      invariant WrittenOnce(was, pix[..], writes)
    {
      ghost var before := pix[..];
      ghost var more := PaintRun(pix, RowStart(w, x, y, i), xE, c);
      WrittenOnceComposes(was, before, pix[..], writes, more);
      writes := writes + more;
    }
  }

  /** Painting only ever fills blank pixels, among them the block's first, and never
      the last of the canvas. */
  lemma {:induction false} PaintedFillsBlanks(pix: seq<Pixel>, w: nat, x: nat, y: nat, xE: nat, rows: nat, c: Pixel)
    requires c.a > 0
    ensures var r := Painted(pix, w, x, y, xE, rows, c);
            && (forall p :: 0 <= p < |pix| && pix[p].a > 0 ==> r[p] == pix[p])
            && (pix != [] ==> r[|pix| - 1] == pix[|pix| - 1])
            && (rows > 0 && y * w + x + 1 < |pix| ==>
                  r[y * w + x] == if pix[y * w + x].a > 0 then pix[y * w + x] else c)
  {
    if rows > 0 {
      PaintedFillsBlanks(pix, w, x, y, xE, rows - 1, c);
      assert RowStart(w, x, y, 0) == y * w + x;
    }
  }

  /** The pixel belongs to one of the block's rows. */
  ghost predicate InBlock(w: nat, x: nat, y: nat, xE: nat, rows: nat, p: int) {
    exists i :: InBlockRow(w, x, y, xE, rows, p, i)
  }

  ghost predicate InBlockRow(w: nat, x: nat, y: nat, xE: nat, rows: nat, p: int, i: int) {
    0 <= i < rows && (y + i) * w + x <= p <= (y + i) * w + x + xE
  }

  lemma BlockGrows(w: nat, x: nat, y: nat, xE: nat, less: nat, more: nat, p: int)
    requires more == less + 1
    ensures InBlock(w, x, y, xE, more, p) <==> InBlock(w, x, y, xE, less, p) || InBlockRow(w, x, y, xE, more, p, less)
  {
    if InBlock(w, x, y, xE, less, p) {
      var i :| InBlockRow(w, x, y, xE, less, p, i);
      assert InBlockRow(w, x, y, xE, more, p, i);
    }
    if InBlock(w, x, y, xE, more, p) {
      var i :| InBlockRow(w, x, y, xE, more, p, i);
      assert i == less || InBlockRow(w, x, y, xE, less, p, i);
    }
  }

  /** Painting a block gives the colour to its blank pixels, but for the canvas's last,
      and to no others. */
  lemma {:induction false} PaintedIsTheBlock(pix: seq<Pixel>, w: nat, x: nat, y: nat, xE: nat, rows: nat, c: Pixel, p: nat)
    requires c.a > 0 && p < |pix|
    ensures Painted(pix, w, x, y, xE, rows, c)[p]
            == if pix[p].a == 0 && p + 1 < |pix| && InBlock(w, x, y, xE, rows, p) then c else pix[p]
  {
    if rows > 0 {
      PaintedIsTheBlock(pix, w, x, y, xE, rows - 1, c, p);
      BlockGrows(w, x, y, xE, rows - 1, rows, p);
      assert InBlockRow(w, x, y, xE, rows, p, rows - 1) <==>
               RowStart(w, x, y, rows - 1) <= p <= RowStart(w, x, y, rows - 1) + xE;
    }
  }
}
