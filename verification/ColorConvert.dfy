/**
 The fixed-point conversion of RGB565 pictures to planar YUV 4:2:2: lookup tables scaled by 65536, three planes
 in one buffer.
 */
module ColorConvert {
  import opened Machine

  const SCALE := 0x1_0000
  const HALF := SCALE / 2
  const CBCR_OFFSET := 128 * SCALE

  // The coefficients, as the conversion from floating point yields them.

  const R_TO_Y := 19595
  const G_TO_Y := 38470
  const B_TO_Y := 7471
  const R_TO_CB := 11059
  const G_TO_CB := 21709
  const B_TO_CB := 32768
  const G_TO_CR := 27439
  const B_TO_CR := 5329

  /**
   Each coefficient is the scaled factor rounded to the nearest integer, and stays that when the evaluation is off by
   up to three hundredths; in double precision it is off by less than 2^-30.
   */
  lemma CoefficientsAreRounded(error: real)
    requires -0.03 <= error <= 0.03
    ensures R_TO_Y == (0.29900 * 65536.0 + 0.5 + error).Floor
    ensures G_TO_Y == (0.58700 * 65536.0 + 0.5 + error).Floor
    ensures B_TO_Y == (0.11400 * 65536.0 + 0.5 + error).Floor
    ensures R_TO_CB == (0.16874 * 65536.0 + 0.5 + error).Floor
    ensures G_TO_CB == (0.33126 * 65536.0 + 0.5 + error).Floor
    ensures B_TO_CB == (0.50000 * 65536.0 + 0.5 + error).Floor
    ensures G_TO_CR == (0.41869 * 65536.0 + 0.5 + error).Floor
    ensures B_TO_CR == (0.08131 * 65536.0 + 0.5 + error).Floor
  {
  }

  // Colours.

  datatype Rgb = Rgb(r: Byte, g: Byte, b: Byte)

  function Expand5(v: bv8): bv8 { (v << 3) | (v >> 2) }

  function Expand6(v: bv8): bv8 { (v << 2) | (v >> 4) }

  function Red(pixel: bv16): bv8 { Expand5(((pixel >> 11) & 0x1F) as bv8) }

  function Green(pixel: bv16): bv8 { Expand6(((pixel >> 5) & 0x3F) as bv8) }

  function Blue(pixel: bv16): bv8 { Expand5((pixel & 0x1F) as bv8) }

  function Colour(pixel: bv16): Rgb {
    Rgb(Red(pixel) as int, Green(pixel) as int, Blue(pixel) as int)
  }

  /** The pixel that keeps the upper bits of each component. */
  function Pack(r: bv8, g: bv8, b: bv8): bv16 {
    (((r >> 3) as bv16) << 11) | (((g >> 2) as bv16) << 5) | ((b >> 3) as bv16)
  }

  /** Expanding a pixel loses nothing. */
  lemma ExpandRoundTrip(pixel: bv16)
    ensures Pack(Red(pixel), Green(pixel), Blue(pixel)) == pixel
  {
  }

  /** The expansion reaches both ends of the range, so that black stays black and white stays white. */
  lemma ExpandReachesBothEnds(pixel: bv16)
    ensures Red(pixel) == 0 <==> pixel & 0xF800 == 0
    ensures Red(pixel) == 255 <==> pixel & 0xF800 == 0xF800
    ensures Green(pixel) == 0 <==> pixel & 0x07E0 == 0
    ensures Green(pixel) == 255 <==> pixel & 0x07E0 == 0x07E0
    ensures Blue(pixel) == 0 <==> pixel & 0x001F == 0
    ensures Blue(pixel) == 255 <==> pixel & 0x001F == 0x001F
  {
  }

  // The components in numbers.

  function RedField(pixel: bv16): nat { ((pixel >> 11) & 0x1F) as int }

  function GreenField(pixel: bv16): nat { ((pixel >> 5) & 0x3F) as int }

  function BlueField(pixel: bv16): nat { (pixel & 0x1F) as int }

  lemma Scale5(v: bv8)
    requires v < 32
    ensures Expand5(v) as int == 33 * (v as int) / 4
  {
  }

  lemma Scale6(v: bv8)
    requires v < 64
    ensures Expand6(v) as int == 65 * (v as int) / 16
  {
  }

  lemma FieldFits(v: bv16)
    requires v < 64
    ensures (v as bv8) as int == v as int && v as bv8 < 64
    ensures v < 32 ==> v as bv8 < 32
  {
  }

  lemma FieldsInRange(pixel: bv16)
    ensures (pixel >> 11) & 0x1F < 32 && (pixel >> 5) & 0x3F < 64 && pixel & 0x1F < 32
  {
  }

  /** Each component is its field times 33/4, or 65/16 for green, rounded down. */
  lemma ComponentsScale(pixel: bv16)
    ensures Red(pixel) as int == 33 * RedField(pixel) / 4 && RedField(pixel) < 32
    ensures Green(pixel) as int == 65 * GreenField(pixel) / 16 && GreenField(pixel) < 64
    ensures Blue(pixel) as int == 33 * BlueField(pixel) / 4 && BlueField(pixel) < 32
  {
    FieldsInRange(pixel);
    FieldFits((pixel >> 11) & 0x1F);
    FieldFits((pixel >> 5) & 0x3F);
    FieldFits(pixel & 0x1F);
    Scale5(((pixel >> 11) & 0x1F) as bv8);
    Scale6(((pixel >> 5) & 0x3F) as bv8);
    Scale5((pixel & 0x1F) as bv8);
    hide Expand5, Expand6;
  }

  lemma Stretched5(f: nat, c: int)
    requires f < 32 && c == 33 * f / 4
    ensures -31 < 31 * c - 255 * f < 31
  {
  }

  lemma Stretched6(f: nat, c: int)
    requires f < 64 && c == 65 * f / 16
    ensures -63 < 63 * c - 255 * f < 63
  {
  }

  /** So it is less than a unit away from the field stretched to the range 0 to 255. */
  lemma ComponentsAreStretched(pixel: bv16)
    ensures -31 < 31 * (Red(pixel) as int) - 255 * RedField(pixel) < 31
    ensures -63 < 63 * (Green(pixel) as int) - 255 * GreenField(pixel) < 63
    ensures -31 < 31 * (Blue(pixel) as int) - 255 * BlueField(pixel) < 31
  {
    hide *;
    ComponentsScale(pixel);
    Stretched5(RedField(pixel), Red(pixel) as int);
    Stretched6(GreenField(pixel), Green(pixel) as int);
    Stretched5(BlueField(pixel), Blue(pixel) as int);
  }

  /** ... and a component is greater exactly where its field is. */
  lemma ComponentsGrow(p: bv16, q: bv16)
    ensures Red(p) as int < Red(q) as int <==> RedField(p) < RedField(q)
    ensures Green(p) as int < Green(q) as int <==> GreenField(p) < GreenField(q)
    ensures Blue(p) as int < Blue(q) as int <==> BlueField(p) < BlueField(q)
  {
    ComponentsScale(p);
    ComponentsScale(q);
    hide Red, Green, Blue, RedField, GreenField, BlueField;
  }

  // The three sums, scaled; the shift by 16 rounds down.

  function SumY(c: Rgb): int { R_TO_Y * c.r + G_TO_Y * c.g + (B_TO_Y * c.b + HALF) }

  function SumCb(c: Rgb): int { -(R_TO_CB * c.r) - G_TO_CB * c.g + (B_TO_CB * c.b + CBCR_OFFSET + HALF - 1) }

  function SumCr(c: Rgb): int { (B_TO_CB * c.r + CBCR_OFFSET + HALF - 1) - G_TO_CR * c.g - B_TO_CR * c.b }

  /** The value that the byte keeps of a shifted sum. */
  function Kept(sum: int): Byte { sum / SCALE % 256 }

  /** The three components of a pixel. */
  function YOf(pixel: bv16): Byte { Kept(SumY(Colour(pixel))) }

  function CbOf(pixel: bv16): Byte { Kept(SumCb(Colour(pixel))) }

  function CrOf(pixel: bv16): Byte { Kept(SumCr(Colour(pixel))) }

  lemma KeptIs(sum: int)
    requires 0 <= sum < 256 * SCALE
    ensures Kept(sum) == sum / SCALE
  {
  }

  /** No sum needs more than eight bits after the shift, so the byte keeps all of it. */
  lemma SumsFitAByte(c: Rgb)
    ensures 0 <= SumY(c) < 256 * SCALE && 0 <= SumCb(c) < 256 * SCALE && 0 <= SumCr(c) < 256 * SCALE
    ensures Kept(SumY(c)) == SumY(c) / SCALE
    ensures Kept(SumCb(c)) == SumCb(c) / SCALE
    ensures Kept(SumCr(c)) == SumCr(c) / SCALE
  {
    hide Kept;
    KeptIs(SumY(c));
    KeptIs(SumCb(c));
    KeptIs(SumCr(c));
  }

  lemma LumaRounds(sum: int, x: int)
    requires 0 <= sum < 256 * SCALE && sum == x + HALF
    ensures -HALF < SCALE * Kept(sum) - x <= HALF
  {
  }

  lemma ChromaRounds(sum: int, x: int)
    requires 0 <= sum < 256 * SCALE && sum == x + CBCR_OFFSET + HALF - 1
    ensures -HALF <= SCALE * (Kept(sum) - 128) - x < HALF
  {
  }

  lemma SumsSplit(c: Rgb)
    ensures SumY(c) == R_TO_Y * c.r + G_TO_Y * c.g + B_TO_Y * c.b + HALF
    ensures SumCb(c) == B_TO_CB * c.b - R_TO_CB * c.r - G_TO_CB * c.g + CBCR_OFFSET + HALF - 1
    ensures SumCr(c) == B_TO_CB * c.r - G_TO_CR * c.g - B_TO_CR * c.b + CBCR_OFFSET + HALF - 1
  {
  }

  /**
   Each component is the scaled weighted sum of the colour, rounded to the nearest integer: ties go up for luma and
   down for chroma, so the bounds leave no choice.
   */
  lemma ComponentsAreRounded(c: Rgb)
    ensures -HALF < SCALE * Kept(SumY(c)) - (R_TO_Y * c.r + G_TO_Y * c.g + B_TO_Y * c.b) <= HALF
    ensures -HALF <= SCALE * (Kept(SumCb(c)) - 128) - (B_TO_CB * c.b - R_TO_CB * c.r - G_TO_CB * c.g) < HALF
    ensures -HALF <= SCALE * (Kept(SumCr(c)) - 128) - (B_TO_CB * c.r - G_TO_CR * c.g - B_TO_CR * c.b) < HALF
  {
    SumsFitAByte(c);
    SumsSplit(c);
    hide Kept, SumY, SumCb, SumCr;
    LumaRounds(SumY(c), R_TO_Y * c.r + G_TO_Y * c.g + B_TO_Y * c.b);
    ChromaRounds(SumCb(c), B_TO_CB * c.b - R_TO_CB * c.r - G_TO_CB * c.g);
    ChromaRounds(SumCr(c), B_TO_CB * c.r - G_TO_CR * c.g - B_TO_CR * c.b);
  }

  /** Against the exact factors of the colour space the components are off by little more than half a unit. */
  lemma ComponentsAreAccurate(c: Rgb)
    ensures -501 <= 1000 * Kept(SumY(c)) - (299 * c.r + 587 * c.g + 114 * c.b) <= 501
    ensures -50_200 <= 100_000 * (Kept(SumCb(c)) - 128) - (50_000 * c.b - 16_874 * c.r - 33_126 * c.g) <= 50_200
    ensures -50_200 <= 100_000 * (Kept(SumCr(c)) - 128) - (50_000 * c.r - 41_869 * c.g - 8_131 * c.b) <= 50_200
  {
    ComponentsAreRounded(c);
    hide Kept;
  }

  /** Grey gives the neutral 128 twice, and its own level as luma. */
  lemma GreyIsNeutral(c: Rgb)
    requires c.r == c.g == c.b
    ensures Kept(SumY(c)) == c.r && Kept(SumCb(c)) == 128 && Kept(SumCr(c)) == 128
  {
  }

  /** The least blue alone, half a unit above neutral, is a tie and goes down. */
  lemma LeastBlueIsNeutral()
    ensures Kept(SumCb(Rgb(0, 0, 1))) == 128
  {
  }

  /** The bytes of a pixel against the exact factors, from its three components. */
  lemma PixelsAreAccurate(pixel: bv16)
    ensures var r, g, b := Red(pixel) as int, Green(pixel) as int, Blue(pixel) as int;
            && -501 <= 1000 * YOf(pixel) - (299 * r + 587 * g + 114 * b) <= 501
            && -50_200 <= 100_000 * (CbOf(pixel) - 128) - (50_000 * b - 16_874 * r - 33_126 * g) <= 50_200
            && -50_200 <= 100_000 * (CrOf(pixel) - 128) - (50_000 * r - 41_869 * g - 8_131 * b) <= 50_200
  {
    ComponentsAreAccurate(Colour(pixel));
    hide Kept, SumY, SumCb, SumCr, Red, Green, Blue;
  }

  /** Grey in the middle, red, green and blue. */
  lemma PixelExamples()
    ensures Colour(0x8410) == Rgb(132, 130, 132) && YOf(0x8410) == 131 && CbOf(0x8410) == 129 && CrOf(0x8410) == 129
    ensures Colour(0xF800) == Rgb(255, 0, 0) && YOf(0xF800) == 76 && CbOf(0xF800) == 85 && CrOf(0xF800) == 255
    ensures Colour(0x07E0) == Rgb(0, 255, 0) && YOf(0x07E0) == 150 && CbOf(0x07E0) == 44 && CrOf(0x07E0) == 21
    ensures Colour(0x001F) == Rgb(0, 0, 255) && YOf(0x001F) == 29 && CbOf(0x001F) == 255 && CrOf(0x001F) == 107
  {
  }
}
