/** RGBA images as values, the zero padding of a crop, and the blend that
    PIL's `Image.paste(src, box, mask)` applies to every channel. */
module Raster {
  import opened Arith

  /** One RGBA pixel; each channel is 0..255 in a PIL image. */
  datatype Rgba = Rgba(r: int, g: int, b: int, a: int)

  /** What `Image.crop` yields for a position outside the image. */
  const Transparent: Rgba := Rgba(0, 0, 0, 0)

  /** An image as a value: `rows[y][x]` is the pixel at (x, y). */
  datatype Bitmap = Bitmap(width: nat, height: nat, rows: seq<seq<Rgba>>)

  predicate WellFormed(b: Bitmap)
  {
    |b.rows| == b.height && forall y :: 0 <= y < |b.rows| ==> |b.rows[y]| == b.width
  }

  predicate InImage(b: Bitmap, x: int, y: int)
  {
    0 <= x < b.width && 0 <= y < b.height
  }

  function At(b: Bitmap, x: int, y: int): Rgba
    requires WellFormed(b) && InImage(b, x, y)
  {
    b.rows[y][x]
  }

  /** The pixel at (x, y) of `b.crop(...)` expressed in b's coordinates:
      PIL pads a crop box that leaves the image with transparent black. */
  function Sample(b: Bitmap, x: int, y: int): Rgba
    requires WellFormed(b)
  {
    if InImage(b, x, y) then At(b, x, y) else Transparent
  }

  /** The per-channel mixing rule of `paste` with a mask value m in 0..255:
      `mix(src, dst, m)`. PIL's rounding is not pinned down; the one property
      the model relies on is that a zero mask keeps the destination. */
  type Mix = (int, int, int) -> int

  ghost predicate KeepsAtZero(mix: Mix)
  {
    forall s, d :: mix(s, d, 0) == d
  }

  /** The pixel `paste` leaves when it mixes src over dst with mask m. */
  function Blend(mix: Mix, src: Rgba, dst: Rgba, m: int): (r: Rgba)
    ensures KeepsAtZero(mix) && m == 0 ==> r == dst
  {
    Rgba(mix(src.r, dst.r, m), mix(src.g, dst.g, m), mix(src.b, dst.b, m), mix(src.a, dst.a, m))
  }

  /** `convert("RGB")`: the alpha band is dropped and the colour bands are
      kept. An RGB image is shown here with every pixel opaque. */
  function DropAlpha(b: Bitmap): (r: Bitmap)
    ensures r.width == b.width && r.height == b.height
    ensures WellFormed(b) ==> WellFormed(r)
    ensures WellFormed(b) ==> forall x, y :: InImage(b, x, y) ==> At(r, x, y) == At(b, x, y).(a := 255)
  {
    Bitmap(b.width, b.height,
      seq(|b.rows|, y requires 0 <= y < |b.rows| =>
        seq(|b.rows[y]|, x requires 0 <= x < |b.rows[y]| => b.rows[y][x].(a := 255))))
  }

  lemma DivBelow(x: int, s: int, n: int)
    requires s >= 1 && 0 <= x < n * s
    ensures 0 <= x / s < n
  {
  }

  /** Position i of block x in blocks of size s lies in block x. */
  lemma DivOfBlock(x: int, s: int, i: int)
    requires s >= 1 && 0 <= i < s
    ensures (x * s + i) / s == x
  {
    DivModUnique(x * s + i, s, x, i);
  }

  lemma BlockBelow(x: int, s: int, i: int, n: int)
    requires s >= 1 && 0 <= i < s && 0 <= x < n
    ensures 0 <= x * s + i < n * s
  {
    MulNonneg(n - 1 - x, s);
    MulNonneg(x, s);
  }

  /** `MULDIV255(a, b)` of the image library: a * b / 255 rounded to the
      nearest integer, computed as ((t >> 8) + t) >> 8 with t = a * b + 128. */
  function MulDiv255(a: int, b: int): int
  {
    var t := a * b + 128;
    (t / 256 + t) / 256
  }

  function Clip8(v: int): int
  {
    if v < 0 then 0 else if v > 255 then 255 else v
  }

  /** A colour channel taken from premultiplied back to straight alpha: kept
      as it is at alpha 0 and 255, otherwise 255 * c / a, cut to 0..255. */
  function Unpremultiply(c: int, a: int): int
  {
    if a == 0 || a == 255 then c else Clip8(255 * c / a)
  }

  /** MULDIV255 by 255 gives a channel value back unchanged. */
  lemma MulDiv255Opaque(c: int)
    requires 0 <= c <= 255
    ensures MulDiv255(c, 255) == c
  {
    var t := c * 255 + 128;
    if c <= 128 {
      DivModUnique(t, 256, c, 128 - c);
      DivModUnique(t / 256 + t, 256, c, 128);
    } else {
      DivModUnique(t, 256, c - 1, 384 - c);
      DivModUnique(t / 256 + t, 256, c, 127);
    }
  }

  /** What a resize that is not NEAREST does to one RGBA pixel it copies:
      the image library resizes RGBA images as premultiplied `RGBa` and
      converts back. The alpha is kept; a transparent pixel loses its
      colour; an opaque pixel keeps it. */
  function Premultiplied(p: Rgba): (r: Rgba)
    ensures r.a == p.a
    ensures p.a == 0 ==> r == Transparent
    ensures p.a == 255 && 0 <= p.r <= 255 && 0 <= p.g <= 255 && 0 <= p.b <= 255 ==> r == p
  {
    var r := Rgba(Unpremultiply(MulDiv255(p.r, p.a), p.a), Unpremultiply(MulDiv255(p.g, p.a), p.a),
                  Unpremultiply(MulDiv255(p.b, p.a), p.a), p.a);
    if p.a == 255 && 0 <= p.r <= 255 && 0 <= p.g <= 255 && 0 <= p.b <= 255 then
      MulDiv255Opaque(p.r);
      MulDiv255Opaque(p.g);
      MulDiv255Opaque(p.b);
      r
    else
      r
  }

  /** `im.resize((w * s, h * s), BOX)` with a whole factor s: the box filter
      with a whole upscaling factor gives every output pixel exactly one
      source pixel, the one at (x / s, y / s). At s = 1 the library returns a
      plain copy; otherwise the copied pixel goes through `Premultiplied`. */
  function Upscale(b: Bitmap, s: nat): (r: Bitmap)
    requires WellFormed(b) && s >= 1
    ensures WellFormed(r)
    ensures r.width == b.width * s && r.height == b.height * s
  {
    Bitmap(b.width * s, b.height * s,
      seq(b.height * s, y requires 0 <= y < b.height * s =>
        DivBelow(y, s, b.height);
        seq(b.width * s, x requires 0 <= x < b.width * s =>
          DivBelow(x, s, b.width);
          if s == 1 then At(b, x / s, y / s) else Premultiplied(At(b, x / s, y / s)))))
  }

  /** Every pixel of the upscaled image comes from one pixel of the source,
      and each source pixel fills an s-by-s block: the same alpha, and the
      same colour where the source pixel is opaque. */
  lemma UpscaleBlock(b: Bitmap, s: nat, x: int, y: int, i: int, j: int)
    requires WellFormed(b) && s >= 1 && InImage(b, x, y)
    requires 0 <= i < s && 0 <= j < s
    ensures InImage(Upscale(b, s), x * s + i, y * s + j)
    ensures At(Upscale(b, s), x * s + i, y * s + j) ==
      if s == 1 then At(b, x, y) else Premultiplied(At(b, x, y))
    ensures At(Upscale(b, s), x * s + i, y * s + j).a == At(b, x, y).a
  {
    DivOfBlock(x, s, i);
    DivOfBlock(y, s, j);
    BlockBelow(x, s, i, b.width);
    BlockBelow(y, s, j, b.height);
  }
}
