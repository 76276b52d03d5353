/** The selection outline of the HUD: over a flat buffer of shape ids, of
    width `w` and height `h` and indexed `x + y * w`, the interior pixels of
    the selected shape that touch another id are painted magenta. This module
    states which pixels that pass changes; `Frontend.Render.DrawOutline`
    performs it in place. */
module Outline {

  import opened Wrappers

  /** The colour written on the outline, 0xRRGGBB. */
  const MAGENTA: int := 0xff00ff

  /** The scanned pixels: every column but the first and the last, every row
      but the first and the last, so that all four neighbours exist. */
  predicate Interior(w: nat, h: nat, x: int, y: int) {
    1 <= x < w - 1 && 1 <= y < h - 1
  }

  lemma AtLeastOneMultiple(k: int, w: int)
    requires k >= 1 && w > 0
    ensures k * w >= w
  {
  }

  /** The flat index `x + y * w` has column `x` and row `y`. */
  lemma IndexCoordinates(w: int, x: int, y: int)
    requires 0 <= x < w && 0 <= y
    ensures (x + y * w) % w == x && (x + y * w) / w == y
  {
    var i := x + y * w;
    var q, r := i / w, i % w;
    assert q * w + r == i;
    assert (q - y) * w == x - r;
    if q - y >= 1 {
      AtLeastOneMultiple(q - y, w);
    } else if y - q >= 1 {
      AtLeastOneMultiple(y - q, w);
    }
  }

  /** A flat index is rebuilt from its column and row. */
  lemma CoordinatesIndex(w: int, j: int)
    requires w > 0 && 0 <= j
    ensures j == j % w + (j / w) * w
  {
  }

  /** The pixel (x, y) of a w-by-h buffer has a flat index below `w * h`. */
  lemma IndexInBounds(w: nat, h: nat, x: int, y: int)
    requires 0 <= x < w && 0 <= y < h
    ensures 0 <= x + y * w < w * h
  {
    MulMonotone(0, y, w);
    MulMonotone(y, h - 1, w);
    assert (h - 1) * w == w * h - w;
  }

  /** Multiplying by a non-negative factor keeps order. */
  lemma MulMonotone(a: int, b: int, w: int)
    requires a <= b && 0 <= w
    ensures a * w <= b * w
  {
    assert b * w - a * w == (b - a) * w;
  }

  /** Every index an interior pixel reads, `i` and `i - 1`, `i + 1`, `i - w`,
      `i + w`, lies in `[0, w * h)`. */
  lemma NeighboursInBounds(w: nat, h: nat, x: int, y: int)
    requires Interior(w, h, x, y)
    ensures 0 <= x + y * w - w && x + y * w + w < w * h
    ensures 0 <= x + y * w - 1 && x + y * w + 1 < w * h
  {
    MulMonotone(0, y - 1, w);
    assert x + y * w - w == x + (y - 1) * w;
    MulMonotone(y + 1, h - 1, w);
    assert x + y * w + w == x + (y + 1) * w;
    assert (h - 1) * w == w * h - w;
  }

  /** The interior pixel (x, y) carries `id` and one of its four neighbours,
      tested left, right, below, above, does not. */
  predicate OnSilhouette(outline: seq<int>, w: nat, h: nat, id: int, x: int, y: int)
    requires Interior(w, h, x, y) && |outline| >= w * h
  {
    NeighboursInBounds(w, h, x, y);
    var i := x + y * w;
    outline[i] == id
    && (outline[i - 1] != id || outline[i + 1] != id || outline[i + w] != id || outline[i - w] != id)
  }

  /** The pass paints the flat index `j`: a shape is selected, `j` is an
      interior pixel, and that pixel is on the silhouette of the selection. */
  predicate Painted(outline: seq<int>, w: nat, h: nat, selected: Option<int>, j: int)
    requires |outline| >= w * h
  {
    && selected.Some?
    && w > 0 && 0 <= j
    && Interior(w, h, j % w, j / w)
    && OnSilhouette(outline, w, h, selected.value, j % w, j / w)
  }

  /** The pixel buffer after the outline pass over `outline`, for the id of
      the selected shape or for no selection. */
  function OutlinePass(pixels: seq<int>, outline: seq<int>, w: nat, h: nat, selected: Option<int>): (r: seq<int>)
    requires |outline| >= w * h
    ensures |r| == |pixels|
  {
    seq(|pixels|, j requires 0 <= j < |pixels| =>
      if Painted(outline, w, h, selected, j) then MAGENTA else pixels[j])
  }

  // ---------------------------------------------------------------------
  // What the pass changes

  /** In coordinates: the interior pixel (x, y) becomes magenta exactly when
      it is on the silhouette of the selection, and keeps its colour
      otherwise. */
  lemma OutlinePassAt(pixels: seq<int>, outline: seq<int>, w: nat, h: nat, id: int, x: int, y: int)
    requires |outline| >= w * h && |pixels| >= w * h
    requires Interior(w, h, x, y)
    ensures 0 <= x + y * w < |pixels|
    ensures OutlinePass(pixels, outline, w, h, Some(id))[x + y * w]
         == if OnSilhouette(outline, w, h, id, x, y) then MAGENTA else pixels[x + y * w]
  {
    NeighboursInBounds(w, h, x, y);
    IndexCoordinates(w, x, y);
  }

  /** The first and last row and column never change. */
  lemma BorderUnchanged(pixels: seq<int>, outline: seq<int>, w: nat, h: nat, selected: Option<int>, x: int, y: int)
    requires |outline| >= w * h && |pixels| >= w * h
    requires 0 <= x < w && 0 <= y < h
    requires x == 0 || x == w - 1 || y == 0 || y == h - 1
    ensures 0 <= x + y * w < |pixels|
    ensures OutlinePass(pixels, outline, w, h, selected)[x + y * w] == pixels[x + y * w]
  {
    IndexCoordinates(w, x, y);
    IndexInBounds(w, h, x, y);
    var i := x + y * w;
    assert !Interior(w, h, i % w, i / w);
  }

  /** Every painted pixel carries the selected id: the outline lies inside
      the selected shape's region. */
  lemma PaintedCarriesId(outline: seq<int>, w: nat, h: nat, id: int, j: int)
    requires |outline| >= w * h
    requires Painted(outline, w, h, Some(id), j)
    ensures 0 <= j < w * h && outline[j] == id
  {
    CoordinatesIndex(w, j);
    NeighboursInBounds(w, h, j % w, j / w);
  }

  /** With no selected shape the pass changes nothing. */
  lemma NoSelectionNoChange(pixels: seq<int>, outline: seq<int>, w: nat, h: nat)
    requires |outline| >= w * h
    ensures OutlinePass(pixels, outline, w, h, None) == pixels
  {
  }

  /** A buffer that holds one id everywhere has no silhouette. */
  lemma UniformNoChange(pixels: seq<int>, outline: seq<int>, w: nat, h: nat, selected: Option<int>)
    requires |outline| >= w * h
    requires forall k, l :: 0 <= k < w * h && 0 <= l < w * h ==> outline[k] == outline[l]
    ensures OutlinePass(pixels, outline, w, h, selected) == pixels
  {
    forall j | 0 <= j < |pixels|
      ensures !Painted(outline, w, h, selected, j)
    {
      if selected.Some? && w > 0 && Interior(w, h, j % w, j / w) {
        CoordinatesIndex(w, j);
        NeighboursInBounds(w, h, j % w, j / w);
      }
    }
  }

  /** A buffer in which the selected id does not occur has no silhouette. */
  lemma AbsentIdNoChange(pixels: seq<int>, outline: seq<int>, w: nat, h: nat, id: int)
    requires |outline| >= w * h
    requires forall k :: 0 <= k < w * h ==> outline[k] != id
    ensures OutlinePass(pixels, outline, w, h, Some(id)) == pixels
  {
    forall j | 0 <= j < |pixels|
      ensures !Painted(outline, w, h, Some(id), j)
    {
      if Painted(outline, w, h, Some(id), j) {
        PaintedCarriesId(outline, w, h, id, j);
      }
    }
  }

  /** Running the pass a second time over the same ids changes nothing more. */
  lemma OutlinePassIdempotent(pixels: seq<int>, outline: seq<int>, w: nat, h: nat, selected: Option<int>)
    requires |outline| >= w * h
    ensures OutlinePass(OutlinePass(pixels, outline, w, h, selected), outline, w, h, selected)
         == OutlinePass(pixels, outline, w, h, selected)
  {
  }
}
