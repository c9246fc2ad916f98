/** The frame compositor: `crop_and_paste` on a canvas held in a 2-D array,
    the up to four pastes of one frame, and `process_an_file`, which builds
    the whole frame sequence. */
module Compositor {
  import opened Arith
  import opened Raster
  import opened Geometry

  /** What one `crop_and_paste` of segment s leaves at canvas position (x, y)
      when the pixel there is p: outside the pasted rectangle p stays; inside
      it, the glint pixel is mixed over p through the mask that the glint
      alpha leaves on a black `L` image when pasted through p's alpha. */
  function PasteAt(mix: Mix, glint: Bitmap, s: Segment, p: Rgba, x: int, y: int): Rgba
    requires WellFormed(glint)
  {
    if s.InDest(x, y) then
      var g := Sample(glint, s.SourceX(x), s.SourceY(y));
      Blend(mix, g, p, mix(g.a, 0, p.a))
    else p
  }

  /** The pixel left after pasting the segments in order, first to last. */
  function PasteAll(mix: Mix, glint: Bitmap, segs: seq<Segment>, p: Rgba, x: int, y: int): Rgba
    requires WellFormed(glint)
  {
    if segs == [] then p
    else PasteAt(mix, glint, segs[|segs| - 1], PasteAll(mix, glint, segs[..|segs| - 1], p, x, y), x, y)
  }

  /** The glint never shows where the canvas is fully transparent: a zero
      canvas alpha makes the mask zero, and a zero mask keeps the pixel. */
  lemma {:induction false} PasteAllKeepsTransparent(mix: Mix, glint: Bitmap, segs: seq<Segment>, p: Rgba, x: int, y: int)
    requires WellFormed(glint) && KeepsAtZero(mix) && p.a == 0
    ensures PasteAll(mix, glint, segs, p, x, y) == p
  {
    if segs != [] {
      PasteAllKeepsTransparent(mix, glint, segs[..|segs| - 1], p, x, y);
      var g := Sample(glint, segs[|segs| - 1].SourceX(x), segs[|segs| - 1].SourceY(y));
      assert mix(g.a, 0, 0) == 0;
    }
  }

  /** When exactly one segment, number k, covers (x, y), the pixel is that
      segment's paste of the original, whatever comes before or after it. */
  lemma {:induction false} PasteAllOnce(mix: Mix, glint: Bitmap, segs: seq<Segment>, k: int, p: Rgba, x: int, y: int)
    requires WellFormed(glint)
    requires 0 <= k < |segs| && segs[k].InDest(x, y)
    requires forall j :: 0 <= j < |segs| && j != k ==> !segs[j].InDest(x, y)
    ensures PasteAll(mix, glint, segs, p, x, y) == PasteAt(mix, glint, segs[k], p, x, y)
  {
    var n := |segs|;
    if k < n - 1 {
      PasteAllOnce(mix, glint, segs[..n - 1], k, p, x, y);
    } else {
      PasteAllNone(mix, glint, segs[..n - 1], p, x, y);
    }
  }

  lemma {:induction false} PasteAllNone(mix: Mix, glint: Bitmap, segs: seq<Segment>, p: Rgba, x: int, y: int)
    requires WellFormed(glint)
    requires forall j :: 0 <= j < |segs| ==> !segs[j].InDest(x, y)
    ensures PasteAll(mix, glint, segs, p, x, y) == p
  {
    if segs != [] {
      PasteAllNone(mix, glint, segs[..|segs| - 1], p, x, y);
    }
  }

  /** The glint column read for canvas column x when the window starts at cx:
      straight across, then wrapped to the glint's left edge. */
  function WrapSource(c: int, v: int, period: int): int
  {
    if c + v < period then c + v else c + v - period
  }

  /** A frame pixel, for any canvas size: the source pixel mixed with the
      glint pixel at the wrapped position (transparent where that position
      lies beyond the glint, as PIL pads a crop). */
  lemma FramePixel(mix: Mix, glint: Bitmap, cx: int, cy: int, cw: nat, ch: nat, p: Rgba, x: int, y: int)
    requires WellFormed(glint) && 0 <= cx < glint.width && 0 <= cy < glint.height
    requires InCanvas(x, y, cw, ch)
    ensures var g := Sample(glint, WrapSource(cx, x, glint.width), WrapSource(cy, y, glint.height));
            PasteAll(mix, glint, Segments(cx, cy, cw, ch, glint.width, glint.height), p, x, y)
            == Blend(mix, g, p, mix(g.a, 0, p.a))
  {
    var gw, gh := glint.width, glint.height;
    var segs := Segments(cx, cy, cw, ch, gw, gh);
    var k := CoveringIndex(cx, cy, cw, ch, gw, gh, x, y);
    SegmentsCover(cx, cy, cw, ch, gw, gh, x, y);
    forall j | 0 <= j < |segs| && j != k
      ensures !segs[j].InDest(x, y)
    {
      if j < k {
        SegmentsDisjoint(cx, cy, cw, ch, gw, gh, j, k, x, y);
      } else {
        SegmentsDisjoint(cx, cy, cw, ch, gw, gh, k, j, x, y);
      }
    }
    PasteAllOnce(mix, glint, segs, k, p, x, y);
    SegmentSource(cx, cy, cw, ch, gw, gh, k, x, y);
  }

  /** Frame i as a value: every pixel of the (upscaled) source gets the
      segments of crop origin i pasted over it. */
  function Enchanted(mix: Mix, glint: Bitmap, base: Bitmap, i: nat): (r: Bitmap)
    requires WellFormed(base) && WellFormed(glint) && glint.width > 0 && glint.height > 0
    ensures WellFormed(r) && r.width == base.width && r.height == base.height
  {
    var o := CropOrigin(i, glint.width, glint.height);
    var segs := Segments(o.0, o.1, base.width, base.height, glint.width, glint.height);
    Bitmap(base.width, base.height,
      seq(base.height, y requires 0 <= y < base.height =>
        seq(base.width, x requires 0 <= x < base.width =>
          PasteAll(mix, glint, segs, At(base, x, y), x, y))))
  }

  /** The shimmer sweeps diagonally: when the canvas is no larger than the
      glint, pixel (x, y) of frame i is the source pixel mixed with glint pixel
      ((x - 2i) mod gw, (y + 2i) mod gh). */
  lemma EnchantedSamplesDiagonal(mix: Mix, glint: Bitmap, base: Bitmap, i: nat, x: int, y: int)
    requires WellFormed(base) && WellFormed(glint) && glint.width > 0 && glint.height > 0
    requires base.width <= glint.width && base.height <= glint.height
    requires InImage(base, x, y)
    ensures var g := At(glint, (x - 2 * i) % glint.width, (y + 2 * i) % glint.height);
            var p := At(base, x, y);
            At(Enchanted(mix, glint, base, i), x, y) == Blend(mix, g, p, mix(g.a, 0, p.a))
  {
    var gw, gh := glint.width, glint.height;
    var o := CropOrigin(i, gw, gh);
    FramePixel(mix, glint, o.0, o.1, base.width, base.height, At(base, x, y), x, y);
    WrapIsMod(-2 * i, x, gw);
    WrapIsMod(2 * i, y, gh);
  }

  /** Wrapping once is reduction modulo the period when the offset is reduced
      and the position lies within one period. */
  lemma WrapIsMod(offset: int, v: int, period: int)
    requires period > 0 && 0 <= v < period
    ensures WrapSource(offset % period, v, period) == (offset + v) % period
  {
    var c := offset % period;
    assert offset == (offset / period) * period + c;
    ModShift(c + v, offset / period, period);
    if c + v >= period {
      ModShift(c + v - period, 1, period);
      DivModUnique(c + v - period, period, 0, c + v - period);
    } else {
      DivModUnique(c + v, period, 0, c + v);
    }
  }

  /** Where the source image is fully transparent, every frame shows the
      source pixel unchanged. */
  lemma EnchantedKeepsTransparent(mix: Mix, glint: Bitmap, base: Bitmap, i: nat, x: int, y: int)
    requires WellFormed(base) && WellFormed(glint) && glint.width > 0 && glint.height > 0
    requires KeepsAtZero(mix)
    requires InImage(base, x, y) && At(base, x, y).a == 0
    ensures At(Enchanted(mix, glint, base, i), x, y) == At(base, x, y)
  {
    var o := CropOrigin(i, glint.width, glint.height);
    PasteAllKeepsTransparent(mix, glint, Segments(o.0, o.1, base.width, base.height, glint.width, glint.height),
      At(base, x, y), x, y);
  }

  /** `crop_and_paste`: paste the glint box [cropStartX, cropStopX) x
      [cropStartY, cropStopY) onto the canvas with its corner at
      (pasteX, pasteY), through the mask derived from the canvas alpha. The
      canvas is `canvas[y, x]`; the part of the box off the canvas is clipped. */
  method CropAndPaste(canvas: array2<Rgba>, glint: Bitmap, mix: Mix,
                      cropStartX: int, cropStartY: int, cropStopX: int, cropStopY: int,
                      pasteX: int, pasteY: int)
    requires WellFormed(glint)
    requires cropStartX <= cropStopX && cropStartY <= cropStopY
    modifies canvas
    ensures forall y, x :: 0 <= y < canvas.Length0 && 0 <= x < canvas.Length1 ==>
      canvas[y, x] == PasteAt(mix, glint, Segment(cropStartX, cropStartY, cropStopX, cropStopY, pasteX, pasteY),
                              old(canvas[y, x]), x, y)
  {
    var s := Segment(cropStartX, cropStartY, cropStopX, cropStopY, pasteX, pasteY);
    var x0, x1 := Max(pasteX, 0), Min(pasteX + s.Width(), canvas.Length1);
    var y0, y1 := Max(pasteY, 0), Min(pasteY + s.Height(), canvas.Length0);
    var y := y0;
    while y < y1
      invariant y0 <= y <= Max(y0, y1)
      invariant forall yy, xx :: 0 <= yy < canvas.Length0 && 0 <= xx < canvas.Length1 ==>
        canvas[yy, xx] == if yy < y then PasteAt(mix, glint, s, old(canvas[yy, xx]), xx, yy) else old(canvas[yy, xx])
    {
      var x := x0;
      while x < x1
        invariant x0 <= x <= Max(x0, x1)
        invariant forall yy, xx :: 0 <= yy < canvas.Length0 && 0 <= xx < canvas.Length1 ==>
          canvas[yy, xx] == if yy < y || (yy == y && xx < x) then PasteAt(mix, glint, s, old(canvas[yy, xx]), xx, yy)
                            else old(canvas[yy, xx])
      {
        var p := canvas[y, x];
        var g := Sample(glint, s.SourceX(x), s.SourceY(y));
        var m := mix(g.a, 0, p.a);
        canvas[y, x] := Blend(mix, g, p, m);
        x := x + 1;
      }
      y := y + 1;
    }
  }

  function Max(a: int, b: int): int { if a < b then b else a }

  /** The canvas as rows of pixels. */
  function Rows(canvas: array2<Rgba>): (rows: seq<seq<Rgba>>)
    reads canvas
    ensures |rows| == canvas.Length0
  {
    seq(canvas.Length0, y requires 0 <= y < canvas.Length0 reads canvas =>
      seq(canvas.Length1, x requires 0 <= x < canvas.Length1 reads canvas => canvas[y, x]))
  }

  /** Each row is as wide as the canvas and holds the canvas's pixels. */
  lemma RowsAt(canvas: array2<Rgba>)
    ensures forall y :: 0 <= y < canvas.Length0 ==> |Rows(canvas)[y]| == canvas.Length1
    ensures forall y, x :: 0 <= y < canvas.Length0 && 0 <= x < canvas.Length1 ==> Rows(canvas)[y][x] == canvas[y, x]
  {
  }

  /** The rows `orig` with the segments pasted over every pixel. */
  ghost function PastedRows(mix: Mix, glint: Bitmap, segs: seq<Segment>, orig: seq<seq<Rgba>>): seq<seq<Rgba>>
    requires WellFormed(glint)
  {
    seq(|orig|, y requires 0 <= y < |orig| =>
      seq(|orig[y]|, x requires 0 <= x < |orig[y]| => PasteAll(mix, glint, segs, orig[y][x], x, y)))
  }

  /** Each pasted row has its original's length, and each pixel its pasted value. */
  lemma PastedRowsAt(mix: Mix, glint: Bitmap, segs: seq<Segment>, orig: seq<seq<Rgba>>)
    requires WellFormed(glint)
    ensures var rows := PastedRows(mix, glint, segs, orig);
      && |rows| == |orig| && (forall y :: 0 <= y < |orig| ==> |rows[y]| == |orig[y]|)
      && forall y, x :: 0 <= y < |orig| && 0 <= x < |orig[y]| ==> rows[y][x] == PasteAll(mix, glint, segs, orig[y][x], x, y)
  {
  }

  /** Paste one more segment over a canvas that holds the pastes of `done`
      applied to `orig`. */
  method PasteNext(canvas: array2<Rgba>, glint: Bitmap, mix: Mix, s: Segment,
                   ghost done: seq<Segment>, ghost orig: seq<seq<Rgba>>)
    requires WellFormed(glint) && s.ValidBox()
    requires Rows(canvas) == PastedRows(mix, glint, done, orig)
    modifies canvas
    ensures Rows(canvas) == PastedRows(mix, glint, done + [s], orig)
  {
    RowsAt(canvas);
    CropAndPaste(canvas, glint, mix, s.cropStartX, s.cropStartY, s.cropStopX, s.cropStopY, s.pasteX, s.pasteY);
    RowsAt(canvas);
    PastedRowsAt(mix, glint, done, orig);
    PastedRowsAt(mix, glint, done + [s], orig);
    assert (done + [s])[..|done|] == done;
    var now, want := Rows(canvas), PastedRows(mix, glint, done + [s], orig);
    forall y | 0 <= y < |now|
      ensures now[y] == want[y]
    {
      assert |now[y]| == |want[y]|;
      forall x | 0 <= x < |now[y]|
        ensures now[y][x] == want[y][x]
      {
        assert old(Rows(canvas))[y][x] == old(canvas[y, x]);
      }
    }
  }

  /** The body of the frame loop of `process_an_file` after the copy: segment
      A always, then B, C and D when the window crosses the right edge, the
      bottom edge or both, in the source's order. */
  method EnchantFrame(canvas: array2<Rgba>, glint: Bitmap, mix: Mix, cropStartX: int, cropStartY: int)
    requires WellFormed(glint)
    requires 0 <= cropStartX < glint.width && 0 <= cropStartY < glint.height
    modifies canvas
    ensures forall y, x :: 0 <= y < canvas.Length0 && 0 <= x < canvas.Length1 ==>
      canvas[y, x] == PasteAll(mix, glint,
                               Segments(cropStartX, cropStartY, canvas.Length1, canvas.Length0, glint.width, glint.height),
                               old(canvas[y, x]), x, y)
  {
    var width, height := glint.width, glint.height;
    var cw, ch := canvas.Length1, canvas.Length0;
    var cropStopX, cropStopY := cropStartX + cw, cropStartY + ch;
    ghost var orig := Rows(canvas);
    RowsAt(canvas);
    ghost var segs: seq<Segment> := [];
    PastedRowsNone(mix, glint, orig);
    var a := Segment(cropStartX, cropStartY, Min(cropStopX, width), Min(cropStopY, height), 0, 0);
    assert a == SegmentA(cropStartX, cropStartY, cw, ch, width, height);
    PasteNext(canvas, glint, mix, a, segs, orig);
    segs := segs + [a];
    if cropStartX + cw > width && cropStartY + ch > height {
      var b := Segment(0, 0, cropStopX - width, cropStopY - height, cw - (cropStopX - width), ch - (cropStopY - height));
      assert b == SegmentB(cropStartX, cropStartY, cw, ch, width, height);
      PasteNext(canvas, glint, mix, b, segs, orig);
      segs := segs + [b];
    }
    if cropStartX + cw > width {
      var c := Segment(0, cropStartY, cropStopX - width, Min(cropStopY, height), cw - (cropStopX - width), 0);
      assert c == SegmentC(cropStartX, cropStartY, cw, ch, width, height);
      PasteNext(canvas, glint, mix, c, segs, orig);
      segs := segs + [c];
    }
    if cropStartY + ch > height {
      var d := Segment(cropStartX, 0, Min(cropStopX, width), cropStopY - height, 0, ch - (cropStopY - height));
      assert d == SegmentD(cropStartX, cropStartY, cw, ch, width, height);
      PasteNext(canvas, glint, mix, d, segs, orig);
      segs := segs + [d];
    }
    assert segs == Segments(cropStartX, cropStartY, cw, ch, width, height);
    RowsPointwise(canvas, glint, mix, segs, orig);
  }

  /** A canvas that holds the pasted rows holds each pasted pixel. */
  lemma RowsPointwise(canvas: array2<Rgba>, glint: Bitmap, mix: Mix, segs: seq<Segment>, orig: seq<seq<Rgba>>)
    requires WellFormed(glint)
    requires |orig| == canvas.Length0 && forall y :: 0 <= y < |orig| ==> |orig[y]| == canvas.Length1
    requires Rows(canvas) == PastedRows(mix, glint, segs, orig)
    ensures forall y, x :: 0 <= y < canvas.Length0 && 0 <= x < canvas.Length1 ==>
      canvas[y, x] == PasteAll(mix, glint, segs, orig[y][x], x, y)
  {
    PastedRowsAt(mix, glint, segs, orig);
    RowsAt(canvas);
    forall y, x | 0 <= y < canvas.Length0 && 0 <= x < canvas.Length1
      ensures canvas[y, x] == PasteAll(mix, glint, segs, orig[y][x], x, y)
    {
      assert Rows(canvas)[y][x] == canvas[y, x];
    }
  }

  lemma PastedRowsNone(mix: Mix, glint: Bitmap, orig: seq<seq<Rgba>>)
    requires WellFormed(glint)
    ensures PastedRows(mix, glint, [], orig) == orig
  {
    var rows := PastedRows(mix, glint, [], orig);
    forall y | 0 <= y < |orig|
      ensures rows[y] == orig[y]
    {
    }
  }

  /** The finished canvas as a value, as `frames.append(enchanted)` keeps it
      (the canvas is not touched again). */
  function Snapshot(canvas: array2<Rgba>): (b: Bitmap)
    reads canvas
    ensures WellFormed(b) && b.width == canvas.Length1 && b.height == canvas.Length0
    ensures forall y, x :: 0 <= y < canvas.Length0 && 0 <= x < canvas.Length1 ==> At(b, x, y) == canvas[y, x]
  {
    RowsAt(canvas);
    Bitmap(canvas.Length1, canvas.Length0, Rows(canvas))
  }

  /** Two images of the same size with the same pixels are the same image. */
  lemma BitmapEquality(b: Bitmap, c: Bitmap)
    requires WellFormed(b) && WellFormed(c) && b.width == c.width && b.height == c.height
    requires forall x, y :: InImage(b, x, y) ==> At(b, x, y) == At(c, x, y)
    ensures b == c
  {
    forall y | 0 <= y < b.height
      ensures b.rows[y] == c.rows[y]
    {
      forall x | 0 <= x < b.width
        ensures b.rows[y][x] == c.rows[y][x]
      {
        assert At(b, x, y) == At(c, x, y);
      }
    }
  }

  /** `process_an_file` once the source image is loaded: upscale it by
      `scale`, then for each frame i report progress i + 1, copy the
      upscaled image, paste the glint segments of crop origin
      (x_offset mod gw, y_offset mod gh) over the copy, keep it, and move the
      offsets by (-2, +2). Returns the frames and the progress values in the
      order they were reported. */
  method ProcessAnFile(source: Bitmap, glint: Bitmap, mix: Mix, frameCount: nat, scale: nat)
    returns (frames: seq<Bitmap>, progress: seq<int>)
    requires WellFormed(source) && WellFormed(glint) && glint.width > 0 && glint.height > 0 && scale >= 1
    ensures |frames| == frameCount
    ensures forall i :: 0 <= i < frameCount ==> frames[i] == Enchanted(mix, glint, Upscale(source, scale), i)
    ensures |progress| == frameCount && forall k :: 0 <= k < frameCount ==> progress[k] == k + 1
  {
    var rawImage := Upscale(source, scale);
    frames, progress := [], [];
    var xOffset: int, yOffset: int := 0, 0;
    var width, height := glint.width, glint.height;
    for i := 0 to frameCount
      invariant |frames| == i && |progress| == i
      invariant xOffset == -2 * i && yOffset == 2 * i
      invariant forall k :: 0 <= k < i ==> frames[k] == Enchanted(mix, glint, rawImage, k) && progress[k] == k + 1
    {
      progress := progress + [i + 1];
      var enchanted := new Rgba[rawImage.height, rawImage.width]((y, x) requires 0 <= y < rawImage.height && 0 <= x < rawImage.width =>
        At(rawImage, x, y));
      var cropStartX, cropStartY := xOffset % width, yOffset % height;
      EnchantFrame(enchanted, glint, mix, cropStartX, cropStartY);
      var frame := Snapshot(enchanted);
      BitmapEquality(frame, Enchanted(mix, glint, rawImage, i));
      frames := frames + [frame];
      xOffset, yOffset := xOffset - 2, yOffset + 2;
    }
  }
}
