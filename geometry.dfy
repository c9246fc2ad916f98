/** Where each frame samples the glint layer: the diagonal scroll, the crop
    origin it reduces to, and the up to four wrap-around segments pasted per
    frame. */
module Geometry {
  import opened Arith

  /** The accumulated scroll offset at frame i: x moves by -2 and y by +2 per frame. */
  function ScrollOffset(i: nat): (int, int)
  {
    (-2 * i, 2 * i)
  }

  /** The crop origin of frame i: the scroll offset reduced with Python's `%`
      (which, for a positive period, agrees with Dafny's `%`). */
  function CropOrigin(i: nat, gw: int, gh: int): (o: (int, int))
    requires gw > 0 && gh > 0
    ensures 0 <= o.0 < gw && 0 <= o.1 < gh
    ensures (o.0 - ScrollOffset(i).0) % gw == 0 && (o.1 - ScrollOffset(i).1) % gh == 0
  {
    var a, b := ScrollOffset(i).0, ScrollOffset(i).1;
    assert a == (a / gw) * gw + a % gw;
    DivModUnique(a % gw - a, gw, -(a / gw), 0);
    assert b == (b / gh) * gh + b % gh;
    DivModUnique(b % gh - b, gh, -(b / gh), 0);
    (a % gw, b % gh)
  }

  /** Moving to the next frame moves the crop origin two columns left and two
      rows down, wrapping around the period. */
  lemma CropOriginStep(i: nat, gw: int, gh: int)
    requires gw > 0 && gh > 0
    ensures CropOrigin(i + 1, gw, gh) == ((CropOrigin(i, gw, gh).0 - 2) % gw, (CropOrigin(i, gw, gh).1 + 2) % gh)
  {
    var a, b := -2 * i, 2 * i;
    var qa, qb := a / gw, b / gh;
    assert a == qa * gw + a % gw;
    assert b == qb * gh + b % gh;
    ModShift(a % gw - 2, qa, gw);
    ModShift(b % gh + 2, qb, gh);
  }

  /** Frame 0 starts at the glint's corner; frame 1 already wraps to the
      right-hand edge. */
  lemma CropOriginFirstFrames(gw: int, gh: int)
    requires gw >= 2 && gh > 0
    ensures CropOrigin(0, gw, gh) == (0, 0)
    ensures CropOrigin(1, gw, gh) == (gw - 2, 2 % gh)
  {
    assert -2 == -1 * gw + (gw - 2);
    ModShift(gw - 2, -1, gw);
  }

  /** One call of `crop_and_paste`: the glint box
      [cropStartX, cropStopX) x [cropStartY, cropStopY) pasted with its
      corner at (pasteX, pasteY) of the canvas. */
  datatype Segment = Segment(cropStartX: int, cropStartY: int, cropStopX: int, cropStopY: int,
                             pasteX: int, pasteY: int)
  {
    predicate ValidBox() { cropStartX <= cropStopX && cropStartY <= cropStopY }
    function Width(): int { cropStopX - cropStartX }
    function Height(): int { cropStopY - cropStartY }

    /** Canvas position (x, y) lies in the pasted rectangle. */
    predicate InDest(x: int, y: int)
    {
      pasteX <= x < pasteX + Width() && pasteY <= y < pasteY + Height()
    }

    /** The glint position whose pixel lands on canvas position (x, y). */
    function SourceX(x: int): int { cropStartX + (x - pasteX) }
    function SourceY(y: int): int { cropStartY + (y - pasteY) }
  }

  function Min(a: int, b: int): int { if a < b then a else b }

  predicate OverflowsX(cx: int, cw: int, gw: int) { cx + cw > gw }
  predicate OverflowsY(cy: int, ch: int, gh: int) { cy + ch > gh }

  /** Segment A: the part of the window inside the glint. */
  function SegmentA(cx: int, cy: int, cw: int, ch: int, gw: int, gh: int): Segment
  {
    Segment(cx, cy, Min(cx + cw, gw), Min(cy + ch, gh), 0, 0)
  }

  /** Segment B: the bottom-right corner, wrapped in both directions. */
  function SegmentB(cx: int, cy: int, cw: int, ch: int, gw: int, gh: int): Segment
  {
    Segment(0, 0, cx + cw - gw, cy + ch - gh, cw - (cx + cw - gw), ch - (cy + ch - gh))
  }

  /** Segment C: the right-hand strip, wrapped to the glint's left edge. */
  function SegmentC(cx: int, cy: int, cw: int, ch: int, gw: int, gh: int): Segment
  {
    Segment(0, cy, cx + cw - gw, Min(cy + ch, gh), cw - (cx + cw - gw), 0)
  }

  /** Segment D: the bottom strip, wrapped to the glint's top edge. */
  function SegmentD(cx: int, cy: int, cw: int, ch: int, gw: int, gh: int): Segment
  {
    Segment(cx, 0, Min(cx + cw, gw), cy + ch - gh, 0, ch - (cy + ch - gh))
  }

  /** The segments one frame pastes, in the order it pastes them, for crop
      origin (cx, cy), canvas size cw x ch and glint size gw x gh. */
  function Segments(cx: int, cy: int, cw: int, ch: int, gw: int, gh: int): (segs: seq<Segment>)
    ensures |segs| >= 1 && segs[0] == SegmentA(cx, cy, cw, ch, gw, gh)
    ensures SegmentB(cx, cy, cw, ch, gw, gh) in segs <== OverflowsX(cx, cw, gw) && OverflowsY(cy, ch, gh)
    ensures SegmentC(cx, cy, cw, ch, gw, gh) in segs <== OverflowsX(cx, cw, gw)
    ensures SegmentD(cx, cy, cw, ch, gw, gh) in segs <== OverflowsY(cy, ch, gh)
    ensures |segs| == 1 + (if OverflowsX(cx, cw, gw) && OverflowsY(cy, ch, gh) then 1 else 0)
                        + (if OverflowsX(cx, cw, gw) then 1 else 0) + (if OverflowsY(cy, ch, gh) then 1 else 0)
  {
    [SegmentA(cx, cy, cw, ch, gw, gh)]
    + (if OverflowsX(cx, cw, gw) && OverflowsY(cy, ch, gh) then [SegmentB(cx, cy, cw, ch, gw, gh)] else [])
    + (if OverflowsX(cx, cw, gw) then [SegmentC(cx, cy, cw, ch, gw, gh)] else [])
    + (if OverflowsY(cy, ch, gh) then [SegmentD(cx, cy, cw, ch, gw, gh)] else [])
  }

  /** Where the window is cut: columns left of SplitX come from the glint
      before its right edge, the others from after the wrap. */
  function SplitX(cx: int, cw: int, gw: int): int { if OverflowsX(cx, cw, gw) then gw - cx else cw }
  function SplitY(cy: int, ch: int, gh: int): int { if OverflowsY(cy, ch, gh) then gh - cy else ch }

  predicate InCanvas(x: int, y: int, cw: int, ch: int) { 0 <= x < cw && 0 <= y < ch }

  /** The quadrant of the canvas a position belongs to: which side of each cut. */
  predicate SameQuadrant(s: Segment, x: int, y: int, cx: int, cy: int, cw: int, ch: int, gw: int, gh: int)
  {
    InCanvas(x, y, cw, ch) &&
    (x < SplitX(cx, cw, gw) <==> s.pasteX == 0) && (y < SplitY(cy, ch, gh) <==> s.pasteY == 0)
  }

  /** Each segment's pasted rectangle is exactly one quadrant of the canvas. */
  lemma SegmentDest(cx: int, cy: int, cw: nat, ch: nat, gw: int, gh: int, k: int, x: int, y: int)
    requires 0 <= cx < gw && 0 <= cy < gh
    requires 0 <= k < |Segments(cx, cy, cw, ch, gw, gh)|
    ensures Segments(cx, cy, cw, ch, gw, gh)[k].ValidBox()
    ensures Segments(cx, cy, cw, ch, gw, gh)[k].InDest(x, y)
        <==> SameQuadrant(Segments(cx, cy, cw, ch, gw, gh)[k], x, y, cx, cy, cw, ch, gw, gh)
  {
  }

  /** The pasted rectangles are pairwise disjoint: no canvas pixel is pasted twice. */
  lemma SegmentsDisjoint(cx: int, cy: int, cw: nat, ch: nat, gw: int, gh: int, j: int, k: int, x: int, y: int)
    requires 0 <= cx < gw && 0 <= cy < gh
    requires 0 <= j < k < |Segments(cx, cy, cw, ch, gw, gh)|
    ensures !(Segments(cx, cy, cw, ch, gw, gh)[j].InDest(x, y) && Segments(cx, cy, cw, ch, gw, gh)[k].InDest(x, y))
  {
    var segs := Segments(cx, cy, cw, ch, gw, gh);
    SegmentDest(cx, cy, cw, ch, gw, gh, j, x, y);
    SegmentDest(cx, cy, cw, ch, gw, gh, k, x, y);
  }

  /** The index of the segment that pastes canvas position (x, y). */
  function CoveringIndex(cx: int, cy: int, cw: int, ch: int, gw: int, gh: int, x: int, y: int): nat
  {
    var right, below := x >= SplitX(cx, cw, gw), y >= SplitY(cy, ch, gh);
    if !right && !below then 0
    else if right && below then 1
    else if right then (if OverflowsY(cy, ch, gh) then 2 else 1)
    else if OverflowsX(cx, cw, gw) then (if OverflowsY(cy, ch, gh) then 3 else 2) else 1
  }

  /** The pasted rectangles cover the canvas: every pixel is pasted by a segment. */
  lemma SegmentsCover(cx: int, cy: int, cw: nat, ch: nat, gw: int, gh: int, x: int, y: int)
    requires 0 <= cx < gw && 0 <= cy < gh
    requires InCanvas(x, y, cw, ch)
    ensures CoveringIndex(cx, cy, cw, ch, gw, gh, x, y) < |Segments(cx, cy, cw, ch, gw, gh)|
    ensures Segments(cx, cy, cw, ch, gw, gh)[CoveringIndex(cx, cy, cw, ch, gw, gh, x, y)].InDest(x, y)
  {
    var k := CoveringIndex(cx, cy, cw, ch, gw, gh, x, y);
    SegmentDest(cx, cy, cw, ch, gw, gh, k, x, y);
  }

  /** Every pasted pixel lies on the canvas. */
  lemma SegmentsInsideCanvas(cx: int, cy: int, cw: nat, ch: nat, gw: int, gh: int, k: int, x: int, y: int)
    requires 0 <= cx < gw && 0 <= cy < gh
    requires 0 <= k < |Segments(cx, cy, cw, ch, gw, gh)|
    requires Segments(cx, cy, cw, ch, gw, gh)[k].InDest(x, y)
    ensures InCanvas(x, y, cw, ch)
  {
    SegmentDest(cx, cy, cw, ch, gw, gh, k, x, y);
  }

  /** The glint column read for canvas column x: straight across up to the
      glint's right edge, then from its left edge again. */
  lemma SegmentSource(cx: int, cy: int, cw: nat, ch: nat, gw: int, gh: int, k: int, x: int, y: int)
    requires 0 <= cx < gw && 0 <= cy < gh
    requires 0 <= k < |Segments(cx, cy, cw, ch, gw, gh)|
    requires Segments(cx, cy, cw, ch, gw, gh)[k].InDest(x, y)
    ensures Segments(cx, cy, cw, ch, gw, gh)[k].SourceX(x) == if cx + x < gw then cx + x else cx + x - gw
    ensures Segments(cx, cy, cw, ch, gw, gh)[k].SourceY(y) == if cy + y < gh then cy + y else cy + y - gh
  {
    SegmentDest(cx, cy, cw, ch, gw, gh, k, x, y);
  }

  /** When the canvas is no larger than the glint, canvas pixel (x, y) is
      sourced from glint pixel ((cx + x) mod gw, (cy + y) mod gh): the glint
      tiles the canvas with wrap-around. */
  lemma SegmentSourceWraps(cx: int, cy: int, cw: nat, ch: nat, gw: int, gh: int, k: int, x: int, y: int)
    requires 0 <= cx < gw && 0 <= cy < gh && cw <= gw && ch <= gh
    requires 0 <= k < |Segments(cx, cy, cw, ch, gw, gh)|
    requires Segments(cx, cy, cw, ch, gw, gh)[k].InDest(x, y)
    ensures Segments(cx, cy, cw, ch, gw, gh)[k].SourceX(x) == (cx + x) % gw
    ensures Segments(cx, cy, cw, ch, gw, gh)[k].SourceY(y) == (cy + y) % gh
  {
    SegmentSource(cx, cy, cw, ch, gw, gh, k, x, y);
    SegmentsInsideCanvas(cx, cy, cw, ch, gw, gh, k, x, y);
    if cx + x < gw {
      DivModUnique(cx + x, gw, 0, cx + x);
    } else {
      DivModUnique(cx + x, gw, 1, cx + x - gw);
    }
    if cy + y < gh {
      DivModUnique(cy + y, gh, 0, cy + y);
    } else {
      DivModUnique(cy + y, gh, 1, cy + y - gh);
    }
  }
}
