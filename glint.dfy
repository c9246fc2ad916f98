/** The size arithmetic and the alpha halving of `load_glint`. The colour to
    alpha mapping, the resampling filter, the blur and the brightness boost
    are image-library operations that keep the size; they are not modelled. */
module Glint {
  import opened Raster

  /** The glint layer's size: the texture's size times the glint scale.
      This size is the tiling period the compositor wraps around. */
  function GlintSize(textureWidth: nat, textureHeight: nat, scale: nat): (size: (nat, nat))
    ensures textureWidth >= 1 && scale >= 2 ==> size.0 >= 2
    ensures textureHeight >= 1 && scale >= 2 ==> size.1 >= 2
  {
    (textureWidth * scale, textureHeight * scale)
  }

  /** The glint period is a whole number of texture tiles in each direction. */
  lemma GlintSizeWholeTiles(textureWidth: nat, textureHeight: nat, scale: nat)
    requires scale >= 1
    ensures GlintSize(textureWidth, textureHeight, scale).0 % scale == 0
    ensures GlintSize(textureWidth, textureHeight, scale).0 / scale == textureWidth
    ensures GlintSize(textureWidth, textureHeight, scale).1 % scale == 0
    ensures GlintSize(textureWidth, textureHeight, scale).1 / scale == textureHeight
  {
    DivOfBlock(textureWidth, scale, 0);
    DivOfBlock(textureHeight, scale, 0);
  }

  function HalfAlpha(p: Rgba): Rgba
  {
    p.(a := p.a / 2)
  }

  /** `getchannel("A").point(lambda x: x // 2)` merged back with the colour
      bands: the alpha of every pixel is halved, rounding down, and nothing
      else changes. */
  function HalveAlpha(b: Bitmap): (r: Bitmap)
    requires WellFormed(b)
    ensures WellFormed(r) && r.width == b.width && r.height == b.height
    ensures forall x, y :: InImage(b, x, y) ==>
      At(r, x, y).r == At(b, x, y).r && At(r, x, y).g == At(b, x, y).g && At(r, x, y).b == At(b, x, y).b
    ensures forall x, y :: InImage(b, x, y) ==>
      2 * At(r, x, y).a <= At(b, x, y).a <= 2 * At(r, x, y).a + 1
  {
    Bitmap(b.width, b.height,
      seq(b.height, y requires 0 <= y < b.height =>
        seq(b.width, x requires 0 <= x < b.width => HalfAlpha(At(b, x, y)))))
  }

  /** With alpha in PIL's range 0..255, the halved glint is at most half opaque. */
  lemma HalvedAlphaAtMostHalf(b: Bitmap, x: int, y: int)
    requires WellFormed(b) && InImage(b, x, y)
    requires 0 <= At(b, x, y).a <= 255
    ensures 0 <= At(HalveAlpha(b), x, y).a <= 127
  {
    var h := HalveAlpha(b);
    assert 2 * At(h, x, y).a <= At(b, x, y).a <= 2 * At(h, x, y).a + 1;
  }

  /** `load_glint` from its texture. The steps that are not modelled (the
      colour-to-alpha mapping, the resize to `scale` times the texture's
      size, the blur and the brightness boost) are the parameter `steps`;
      all the model asks of them is the size they leave. The last step
      halves the alpha. The result is the period the compositor tiles with,
      at most half opaque. */
  function LoadGlint(texture: Bitmap, scale: nat, steps: Bitmap -> Bitmap): (glint: Bitmap)
    requires WellFormed(steps(texture))
    requires steps(texture).width == texture.width * scale && steps(texture).height == texture.height * scale
    ensures WellFormed(glint)
    ensures (glint.width, glint.height) == GlintSize(texture.width, texture.height, scale)
    ensures texture.width >= 1 && texture.height >= 1 && scale >= 2 ==> glint.width >= 2 && glint.height >= 2
    ensures (forall x, y :: InImage(glint, x, y) ==> 0 <= At(steps(texture), x, y).a <= 255) ==>
      forall x, y :: InImage(glint, x, y) ==> 0 <= At(glint, x, y).a <= 127
  {
    HalveAlpha(steps(texture))
  }
}
