/** Converting an image to semi-planar YUV and back (jni/rgb2yuv.cc, jni/yuv2rgb.cc). */
module ImageRoundTrip {
  import opened Arith
  import opened Yuv
  import opened Argb

  predicate IsGray(c: Rgb) {
    c.r == c.g == c.b
  }

  predicate AllGray(img: seq<Rgb>) {
    forall i :: 0 <= i < |img| ==> IsGray(img[i])
  }

  /** The pixel is gray again, of the same level or one darker. */
  predicate ComesBack(c: Rgb, p: uint32) {
    IsGray(FromArgb(p)) && (FromArgb(p).r == c.r || FromArgb(p).r == c.r - 1)
  }

  /** out is what the semi-planar converter makes of the luma and chroma planes of buffer. */
  ghost predicate IsDecoded(out: seq<uint32>, buffer: seq<uint8>, w: nat, h: nat) {
    && 0 < w && |out| == w * h <= |buffer|
    && forall i :: 0 <= i < |out| ==> SpAt(out[i], buffer[..w * h], buffer[w * h..], w, i)
  }

  // ---- One pixel ----

  /** A gray level survives a neutral chroma, up to one. */
  lemma NeutralChromaKeepsGray(c: Rgb)
    requires IsGray(c)
    ensures ComesBack(c, Pack8888(ToChannels(Luma(c), 128, 128)))
  {
    var q := (220 * c.r + 128) / 0x100;
    assert Luma(c) == q + 16 && 0 <= q <= 219;
    UnpackPacked(ToChannels(Luma(c), 128, 128));
    assert ToChannels(Luma(c), 128, 128) == Channels(1192 * q, 1192 * q, 1192 * q);
  }

  /** With the chroma of only one or two pixels a gray level turns green. */
  lemma PartialChromaLosesGray(c: Rgb, chroma: int)
    requires IsGray(c) && (chroma == 32 || chroma == 64)
    ensures var d := FromArgb(Pack8888(ToChannels(Luma(c), chroma, chroma)));
      d.r < d.g && d.b < d.g && !IsGray(d)
  {
    var q := (220 * c.r + 128) / 0x100;
    assert Luma(c) == q + 16 && 0 <= q <= 219;
    var ch := ToChannels(Luma(c), chroma, chroma);
    UnpackPacked(ch);
    assert ch.r + 0x400 <= ch.g && ch.b + 0x400 <= ch.g;
  }

  /** Each channel is off by at most this much. */
  predicate Close(c: Rgb, p: uint32) {
    var d := FromArgb(p);
    c.r - 7 <= d.r <= c.r + 1 && c.g - 2 <= d.g <= c.g + 5 && c.b - 9 <= d.b <= c.b + 2
  }

  /** A color encoded in a block of its own color, and decoded again. */
  function Back(c: Rgb): Channels {
    ToChannels(Luma(c), 4 * ChromaTerm(c, true), 4 * ChromaTerm(c, false))
  }

  lemma OwnChromaKeepsColor(c: Rgb)
    ensures Close(c, Pack8888(Back(c)))
  {
    UnpackPacked(Back(c));
    ChannelsSurvive(c);
  }

  /** The quotients that the luma and the chroma terms are rounded to. */
  lemma Rounded(c: Rgb)
    ensures var y := Luma(c) - 16; 0 <= y && 0x100 * y <= 66 * c.r + 129 * c.g + 25 * c.b + 128 <= 0x100 * y + 0xff
    ensures var v := ChromaTerm(c, false) - 32; 0x400 * v <= 112 * c.r - 94 * c.g - 18 * c.b + 128 <= 0x400 * v + 0x3ff
    ensures var u := ChromaTerm(c, true) - 32; 0x400 * u <= -38 * c.r - 74 * c.g + 112 * c.b + 128 <= 0x400 * u + 0x3ff
  {
  }

  /** A channel value that is near a byte's is so after clamping. */
  lemma NearAfterClamp(v: int, x: uint8, below: nat, above: nat)
    requires 0x400 * (x - below) <= v < 0x400 * (x + above + 1)
    ensures x - below <= Clamp(v) / 0x400 <= x + above
  {
  }

  /** The channels for a luma y above black and chroma terms u and v above neutral. */
  lemma BackIs(c: Rgb, y: int, u: int, v: int)
    requires 0 <= y && Luma(c) == y + 16 && ChromaTerm(c, true) == u + 32 && ChromaTerm(c, false) == v + 32
    ensures Back(c) == Channels(Clamp(1192 * y + 6536 * v), Clamp(1192 * y - 3332 * v - 1600 * u), Clamp(1192 * y + 8264 * u))
  {
  }

  lemma RedNear(c: Rgb, y: int, v: int)
    requires 0x100 * y <= 66 * c.r + 129 * c.g + 25 * c.b + 128 <= 0x100 * y + 0xff
    requires 0x400 * v <= 112 * c.r - 94 * c.g - 18 * c.b + 128 <= 0x400 * v + 0x3ff
    ensures 0x400 * (c.r - 7) <= 1192 * y + 6536 * v < 0x400 * (c.r + 2)
  {
  }

  lemma GreenNear(c: Rgb, y: int, u: int, v: int)
    requires 0x100 * y <= 66 * c.r + 129 * c.g + 25 * c.b + 128 <= 0x100 * y + 0xff
    requires 0x400 * v <= 112 * c.r - 94 * c.g - 18 * c.b + 128 <= 0x400 * v + 0x3ff
    requires 0x400 * u <= -38 * c.r - 74 * c.g + 112 * c.b + 128 <= 0x400 * u + 0x3ff
    ensures 0x400 * (c.g - 2) <= 1192 * y - 3332 * v - 1600 * u < 0x400 * (c.g + 6)
  {
  }

  lemma BlueNear(c: Rgb, y: int, u: int)
    requires 0x100 * y <= 66 * c.r + 129 * c.g + 25 * c.b + 128 <= 0x100 * y + 0xff
    requires 0x400 * u <= -38 * c.r - 74 * c.g + 112 * c.b + 128 <= 0x400 * u + 0x3ff
    ensures 0x400 * (c.b - 9) <= 1192 * y + 8264 * u < 0x400 * (c.b + 3)
  {
  }

  /** Each channel comes back near its value. */
  lemma ChannelsSurvive(c: Rgb)
    ensures c.r - 7 <= Back(c).r / 0x400 <= c.r + 1
    ensures c.g - 2 <= Back(c).g / 0x400 <= c.g + 5
    ensures c.b - 9 <= Back(c).b / 0x400 <= c.b + 2
  {
    var y, u, v := Luma(c) - 16, ChromaTerm(c, true) - 32, ChromaTerm(c, false) - 32;
    Rounded(c);
    BackIs(c, y, u, v);
    RedSurvives(c, y, v);
    GreenSurvives(c, y, u, v);
    BlueSurvives(c, y, u);
  }

  lemma RedSurvives(c: Rgb, y: int, v: int)
    requires 0x100 * y <= 66 * c.r + 129 * c.g + 25 * c.b + 128 <= 0x100 * y + 0xff
    requires 0x400 * v <= 112 * c.r - 94 * c.g - 18 * c.b + 128 <= 0x400 * v + 0x3ff
    ensures c.r - 7 <= Clamp(1192 * y + 6536 * v) / 0x400 <= c.r + 1
  {
    RedNear(c, y, v);
    NearAfterClamp(1192 * y + 6536 * v, c.r, 7, 1);
  }

  lemma GreenSurvives(c: Rgb, y: int, u: int, v: int)
    requires 0x100 * y <= 66 * c.r + 129 * c.g + 25 * c.b + 128 <= 0x100 * y + 0xff
    requires 0x400 * v <= 112 * c.r - 94 * c.g - 18 * c.b + 128 <= 0x400 * v + 0x3ff
    requires 0x400 * u <= -38 * c.r - 74 * c.g + 112 * c.b + 128 <= 0x400 * u + 0x3ff
    ensures c.g - 2 <= Clamp(1192 * y - 3332 * v - 1600 * u) / 0x400 <= c.g + 5
  {
    GreenNear(c, y, u, v);
    NearAfterClamp(1192 * y - 3332 * v - 1600 * u, c.g, 2, 5);
  }

  lemma BlueSurvives(c: Rgb, y: int, u: int)
    requires 0x100 * y <= 66 * c.r + 129 * c.g + 25 * c.b + 128 <= 0x100 * y + 0xff
    requires 0x400 * u <= -38 * c.r - 74 * c.g + 112 * c.b + 128 <= 0x400 * u + 0x3ff
    ensures c.b - 9 <= Clamp(1192 * y + 8264 * u) / 0x400 <= c.b + 2
  {
    BlueNear(c, y, u);
    NearAfterClamp(1192 * y + 8264 * u, c.b, 9, 2);
  }

  /** Every bound is reached, each by some color. */
  lemma RedBoundsReached()
    ensures Back(Rgb(8, 95, 16)).r / 0x400 == 8 - 7 && Back(Rgb(0, 0, 6)).r / 0x400 == 0 + 1
  {
    assert Luma(Rgb(8, 95, 16)) == 67 && ChromaTerm(Rgb(8, 95, 16), true) == 26 && ChromaTerm(Rgb(8, 95, 16), false) == 23;
    assert Luma(Rgb(0, 0, 6)) == 17 && ChromaTerm(Rgb(0, 0, 6), true) == 32 && ChromaTerm(Rgb(0, 0, 6), false) == 32;
  }

  lemma GreenBoundsReached()
    ensures Back(Rgb(0, 51, 252)).g / 0x400 == 51 - 2 && Back(Rgb(131, 24, 242)).g / 0x400 == 24 + 5
  {
    assert Luma(Rgb(0, 51, 252)) == 66 && ChromaTerm(Rgb(0, 51, 252), true) == 56 && ChromaTerm(Rgb(0, 51, 252), false) == 23;
    assert Luma(Rgb(131, 24, 242)) == 86 && ChromaTerm(Rgb(131, 24, 242), true) == 51 && ChromaTerm(Rgb(131, 24, 242), false) == 39;
  }

  lemma BlueBoundsReached()
    ensures Back(Rgb(0, 0, 209)).b / 0x400 == 209 - 9 && Back(Rgb(0, 184, 29)).b / 0x400 == 29 + 2
  {
    assert Luma(Rgb(0, 0, 209)) == 36 && ChromaTerm(Rgb(0, 0, 209), true) == 54 && ChromaTerm(Rgb(0, 0, 209), false) == 28;
    assert Luma(Rgb(0, 184, 29)) == 112 && ChromaTerm(Rgb(0, 184, 29), true) == 22 && ChromaTerm(Rgb(0, 184, 29), false) == 14;
  }

  // ---- A block of a gray image ----

  function Count(b: bool): int {
    if b then 1 else 0
  }

  lemma GrayTermAt(img: seq<Rgb>, w: nat, h: nat, y: nat, x: nat, u: bool)
    requires AllGray(img) && |img| == w * h
    ensures TermAt(img, w, y, x, w * h, u) == 32 * Count(y < h && x < w)
  {
    if x < w && y < h {
      PixelInImage(w, h, y, x);
    } else if x < w {
      MulMonotone(h, y, w);
    }
  }

  /** In a gray image a block's chroma bytes are 32 for each of its pixels inside the image. */
  lemma GrayBlock(img: seq<Rgb>, w: nat, h: nat, y: nat, x: nat, u: bool)
    requires AllGray(img) && |img| == w * h && y < h && x < w
    ensures FourTerms(img, w, y, x, w * h, u) == 32 * (1 + Count(x + 1 < w)) * (1 + Count(y + 1 < h))
  {
    GrayTermAt(img, w, h, y, x, u);
    GrayTermAt(img, w, h, y, x + 1, u);
    GrayTermAt(img, w, h, y + 1, x, u);
    GrayTermAt(img, w, h, y + 1, x + 1, u);
  }

  // ---- One decoded pixel ----

  lemma LumaByte(img: seq<Rgb>, buffer: seq<uint8>, w: nat, h: nat, i: nat)
    requires IsYuv(buffer, img, w, h) && 0 < w && i < w * h
    ensures i < |buffer| && buffer[i] == Luma(img[i])
  {
    assert buffer[i] == YuvByte(img, w, h, i);
  }

  /** Where the encoder put the sums of the block at block row r, block column c. */
  lemma ChromaBytes(img: seq<Rgb>, buffer: seq<uint8>, w: nat, h: nat, n: nat, r: nat, c: nat, k: nat)
    requires IsYuv(buffer, img, w, h) && 0 < w && n == w * h
    requires r < BlocksPerRow(h) && c < BlocksPerRow(w) && k == r * BlocksPerRow(w) + c
    ensures n + 2 * k + 1 < |buffer|
    ensures buffer[n + 2 * k] == FourTerms(img, w, 2 * r, 2 * c, n, false)
    ensures buffer[n + 2 * k + 1] == FourTerms(img, w, 2 * r, 2 * c, n, true)
  {
    PixelInImage(BlocksPerRow(w), BlocksPerRow(h), r, c);
    DivisionUnique(k, BlocksPerRow(w), r, c);
    ChromaByte(img, w, h, n, k, false);
    ChromaByte(img, w, h, n, k, true);
  }

  lemma ChromaByte(img: seq<Rgb>, w: nat, h: nat, n: nat, k: nat, u: bool)
    requires |img| == n == w * h && 0 < w && k < Blocks(w, h)
    ensures YuvByte(img, w, h, n + 2 * k + Count(u)) == BlockSum(img, w, k, n, u)
  {
    assert (2 * k + Count(u)) / 2 == k && ((2 * k + Count(u)) % 2 == 1 <==> u);
  }

  lemma ReadAt(out: seq<uint32>, buffer: seq<uint8>, w: nat, h: nat, n: nat, y: nat, x: nat, i: nat)
    requires IsDecoded(out, buffer, w, h) && n == w * h && y < h && x < w && i == y * w + x
    ensures i < |out| && InSp(buffer[..n], buffer[n..], w, y, x)
    ensures out[i] == Pack8888(SpChannels(buffer[..n], buffer[n..], w, y, x))
  {
    PixelInImage(w, h, y, x);
    DivisionUnique(i, w, y, x);
    assert SpAt(out[i], buffer[..n], buffer[n..], w, i);
  }

  lemma ChannelsRead(buffer: seq<uint8>, w: nat, n: nat, y: nat, x: nat, i: nat, k: nat)
    requires i == y * w + x && n <= |buffer| && InSp(buffer[..n], buffer[n..], w, y, x) && SpChroma(w, y, x) == 2 * k
    ensures i < n && n + 2 * k + 1 < |buffer|
    ensures SpChannels(buffer[..n], buffer[n..], w, y, x) == ToChannels(buffer[i], buffer[n + 2 * k + 1], buffer[n + 2 * k])
  {
    assert buffer[n..][2 * k] == buffer[n + 2 * k] && buffer[n..][2 * k + 1] == buffer[n + 2 * k + 1];
  }

  /** The decoder looks for the chroma of the pixel at row y, column x where the encoder put that of
      the block at block row r, block column c. */
  predicate FindsBlock(w: nat, y: nat, x: nat, r: nat, c: nat) {
    SpChroma(w, y, x) == 2 * (r * BlocksPerRow(w) + c)
  }

  /** The decoded pixel has its own luma, and the sums of the block found as chroma. */
  lemma DecodedPixel(img: seq<Rgb>, buffer: seq<uint8>, out: seq<uint32>, w: nat, h: nat, n: nat, y: nat, x: nat, r: nat, c: nat, i: nat)
    requires IsYuv(buffer, img, w, h) && IsDecoded(out, buffer, w, h) && n == w * h && y < h && x < w && i == y * w + x
    requires r < BlocksPerRow(h) && c < BlocksPerRow(w) && FindsBlock(w, y, x, r, c)
    ensures i < |out| == |img| == n
    ensures out[i] == Pack8888(ToChannels(Luma(img[i]), FourTerms(img, w, 2 * r, 2 * c, n, true), FourTerms(img, w, 2 * r, 2 * c, n, false)))
  {
    var k := r * BlocksPerRow(w) + c;
    ReadAt(out, buffer, w, h, n, y, x, i);
    ChannelsRead(buffer, w, n, y, x, i, k);
    LumaByte(img, buffer, w, h, i);
    ChromaBytes(img, buffer, w, h, n, r, c, k);
  }

  // ---- Even sizes ----

  lemma PlaceInImage(w: nat, h: nat, i: nat) returns (y: nat, x: nat)
    requires 0 < w && i < w * h
    ensures y < h && x < w && i == y * w + x
  {
    RowInImage(i, w, h);
    Division(i, w);
    y, x := i / w, i % w;
  }

  lemma EvenWidthFindsBlock(w: nat, y: nat, x: nat)
    requires w % 2 == 0
    ensures FindsBlock(w, y, x, y / 2, x / 2)
  {
    DoubledRows(y / 2, BlocksPerRow(w), w);
  }

  lemma DoubledRows(r: nat, b: nat, w: nat)
    requires w == 2 * b
    ensures r * w == 2 * (r * b)
  {
  }

  /** A pixel whose chroma is found at a block of four pixels comes back. */
  lemma InnerPixelComesBack(img: seq<Rgb>, buffer: seq<uint8>, out: seq<uint32>, w: nat, h: nat, y: nat, x: nat, r: nat, c: nat, i: nat)
    requires AllGray(img) && IsYuv(buffer, img, w, h) && IsDecoded(out, buffer, w, h)
    requires y < h && x < w && i == y * w + x && 2 * r + 1 < h && 2 * c + 1 < w && FindsBlock(w, y, x, r, c)
    ensures i < |out| == |img| && ComesBack(img[i], out[i])
  {
    DecodedPixel(img, buffer, out, w, h, w * h, y, x, r, c, i);
    WholeBlockIsNeutral(img, w, h, r, c, false);
    WholeBlockIsNeutral(img, w, h, r, c, true);
    NeutralChromaKeepsGray(img[i]);
  }

  /** The chroma of the pixel at row y, column x is found at its own block, of four pixels. */
  predicate Inner(w: nat, h: nat, y: nat, x: nat) {
    2 * (y / 2) + 1 < h && 2 * (x / 2) + 1 < w && FindsBlock(w, y, x, y / 2, x / 2)
  }

  ghost predicate AllInner(w: nat, h: nat) {
    forall y: nat, x: nat :: y < h && x < w ==> Inner(w, h, y, x)
  }

  lemma EvenSizeAllInner(w: nat, h: nat)
    requires w % 2 == 0 && h % 2 == 0
    ensures AllInner(w, h)
  {
    forall y: nat, x: nat | y < h && x < w
      ensures Inner(w, h, y, x)
    {
      EvenWidthFindsBlock(w, y, x);
      WholePair(y, h);
      WholePair(x, w);
    }
  }

  lemma WholePair(v: nat, size: nat)
    requires v < size && size % 2 == 0
    ensures 2 * (v / 2) + 1 < size
  {
  }

  lemma AllInnerComesBack(img: seq<Rgb>, buffer: seq<uint8>, out: seq<uint32>, w: nat, h: nat)
    requires AllGray(img) && IsYuv(buffer, img, w, h) && IsDecoded(out, buffer, w, h) && AllInner(w, h)
    ensures |img| == |out| && forall i :: 0 <= i < |out| ==> ComesBack(img[i], out[i])
  {
    forall i | 0 <= i < |out|
      ensures ComesBack(img[i], out[i])
    {
      var y, x := PlaceInImage(w, h, i);
      assert Inner(w, h, y, x);
      InnerPixelComesBack(img, buffer, out, w, h, y, x, y / 2, x / 2, i);
    }
  }

  lemma WholeBlockIsNeutral(img: seq<Rgb>, w: nat, h: nat, r: nat, c: nat, u: bool)
    requires AllGray(img) && |img| == w * h && 2 * r + 1 < h && 2 * c + 1 < w
    ensures FourTerms(img, w, 2 * r, 2 * c, w * h, u) == 128
  {
    GrayBlock(img, w, h, 2 * r, 2 * c, u);
  }

  // ---- Blocks of one color ----

  /** The four pixels of the block at block row r, block column c have one color. */
  predicate OneColor(img: seq<Rgb>, w: nat, r: nat, c: nat) {
    var p := 2 * r * w + 2 * c;
    p + w + 1 < |img| && img[p] == img[p + 1] == img[p + w] == img[p + w + 1]
  }

  ghost predicate BlocksOfOneColor(img: seq<Rgb>, w: nat, h: nat) {
    forall r: nat, c: nat :: 2 * r + 1 < h && 2 * c + 1 < w ==> OneColor(img, w, r, c)
  }

  lemma ColorOfPixel(img: seq<Rgb>, w: nat, y: nat, x: nat, i: nat)
    requires OneColor(img, w, y / 2, x / 2) && i == y * w + x
    ensures i < |img| && img[i] == img[2 * (y / 2) * w + 2 * (x / 2)]
  {
    NextRow(2 * (y / 2), w);
  }

  lemma ColorOfBlock(img: seq<Rgb>, w: nat, h: nat, r: nat, c: nat, u: bool)
    requires |img| == w * h && 2 * r + 1 < h && 2 * c + 1 < w && OneColor(img, w, r, c)
    ensures FourTerms(img, w, 2 * r, 2 * c, w * h, u) == 4 * ChromaTerm(img[2 * r * w + 2 * c], u)
  {
    NextRow(2 * r, w);
  }

  lemma OneColorPixelIsClose(img: seq<Rgb>, buffer: seq<uint8>, out: seq<uint32>, w: nat, h: nat, y: nat, x: nat, r: nat, c: nat, i: nat)
    requires IsYuv(buffer, img, w, h) && IsDecoded(out, buffer, w, h) && OneColor(img, w, r, c) && r == y / 2 && c == x / 2
    requires y < h && x < w && i == y * w + x && 2 * r + 1 < h && 2 * c + 1 < w && FindsBlock(w, y, x, r, c)
    ensures i < |out| == |img| && Close(img[i], out[i])
  {
    DecodedPixel(img, buffer, out, w, h, w * h, y, x, r, c, i);
    ColorOfBlock(img, w, h, r, c, false);
    ColorOfBlock(img, w, h, r, c, true);
    ColorOfPixel(img, w, y, x, i);
    OwnChromaKeepsColor(img[i]);
  }

  // ---- Odd sizes ----

  /** A pixel whose block has only one or two pixels in the image is not gray afterwards. */
  lemma EdgePixelLost(img: seq<Rgb>, buffer: seq<uint8>, out: seq<uint32>, w: nat, h: nat, y: nat, x: nat, r: nat, c: nat, i: nat)
    requires AllGray(img) && IsYuv(buffer, img, w, h) && IsDecoded(out, buffer, w, h)
    requires y < h && x < w && i == y * w + x && r < BlocksPerRow(h) && c < BlocksPerRow(w) && FindsBlock(w, y, x, r, c)
    requires 2 * c + 1 == w || 2 * r + 1 == h
    ensures i < |out| == |img| && !ComesBack(img[i], out[i])
  {
    DecodedPixel(img, buffer, out, w, h, w * h, y, x, r, c, i);
    GrayBlock(img, w, h, 2 * r, 2 * c, false);
    GrayBlock(img, w, h, 2 * r, 2 * c, true);
    PartialChromaLosesGray(img[i], FourTerms(img, w, 2 * r, 2 * c, w * h, true));
  }

  /** With an odd width the last pixel of the first row is lost. */
  lemma OddWidthLosesPixel(img: seq<Rgb>, buffer: seq<uint8>, out: seq<uint32>, w: nat, h: nat)
    requires AllGray(img) && IsYuv(buffer, img, w, h) && IsDecoded(out, buffer, w, h) && 0 < h
    requires w % 2 == 1
    ensures w - 1 < |out| == |img| && !ComesBack(img[w - 1], out[w - 1])
  {
    EdgePixelLost(img, buffer, out, w, h, 0, w - 1, 0, w / 2, w - 1);
  }

  /** With an even width and an odd height the first pixel of the last row is lost. */
  lemma OddHeightLosesPixel(img: seq<Rgb>, buffer: seq<uint8>, out: seq<uint32>, w: nat, h: nat, r: nat)
    requires AllGray(img) && IsYuv(buffer, img, w, h) && IsDecoded(out, buffer, w, h)
    requires h == 2 * r + 1 && FindsBlock(w, 2 * r, 0, r, 0)
    ensures 2 * r * w < |out| == |img| && !ComesBack(img[2 * r * w], out[2 * r * w])
  {
    EdgePixelLost(img, buffer, out, w, h, 2 * r, 0, r, 0, 2 * r * w);
  }

  // ---- The round trip ----

  /** Every pixel of a gray image comes back gray, of its level or one below, exactly when width and
      height are both even. */
  lemma GrayRoundTripIff(img: seq<Rgb>, buffer: seq<uint8>, out: seq<uint32>, w: nat, h: nat)
    requires AllGray(img) && IsYuv(buffer, img, w, h) && IsDecoded(out, buffer, w, h) && 0 < h
    ensures (forall i :: 0 <= i < |out| ==> ComesBack(img[i], out[i])) <==> w % 2 == 0 && h % 2 == 0
  {
    if w % 2 == 0 && h % 2 == 0 {
      EvenSizeAllInner(w, h);
      AllInnerComesBack(img, buffer, out, w, h);
    } else if w % 2 == 1 {
      OddWidthLosesPixel(img, buffer, out, w, h);
    } else {
      EvenWidthFindsBlock(w, h - 1, 0);
      OddHeightLosesPixel(img, buffer, out, w, h, h / 2);
    }
  }

  /** In an image of even size whose 2x2 blocks have one color each, every pixel comes back close to its color. */
  lemma ColorsComeBack(img: seq<Rgb>, buffer: seq<uint8>, out: seq<uint32>, w: nat, h: nat)
    requires IsYuv(buffer, img, w, h) && IsDecoded(out, buffer, w, h) && BlocksOfOneColor(img, w, h)
    requires w % 2 == 0 && h % 2 == 0
    ensures |img| == |out| && forall i :: 0 <= i < |out| ==> Close(img[i], out[i])
  {
    EvenSizeAllInner(w, h);
    AllInnerClose(img, buffer, out, w, h);
  }

  lemma AllInnerClose(img: seq<Rgb>, buffer: seq<uint8>, out: seq<uint32>, w: nat, h: nat)
    requires IsYuv(buffer, img, w, h) && IsDecoded(out, buffer, w, h) && BlocksOfOneColor(img, w, h) && AllInner(w, h)
    ensures |img| == |out| && forall i :: 0 <= i < |out| ==> Close(img[i], out[i])
  {
    forall i | 0 <= i < |out|
      ensures Close(img[i], out[i])
    {
      var y, x := PlaceInImage(w, h, i);
      assert Inner(w, h, y, x) && OneColor(img, w, y / 2, x / 2);
      OneColorPixelIsClose(img, buffer, out, w, h, y, x, y / 2, x / 2, i);
    }
  }

  /** The decoder never reads outside what the encoder wrote, whatever the size. */
  lemma EncodedIsReadable(buffer: seq<uint8>, w: nat, h: nat)
    requires |buffer| == YuvSize(w, h)
    ensures w * h <= |buffer| && SpReadable(buffer[..w * h], buffer[w * h..], w, h)
  {
    forall y, x | 0 <= y < h && 0 <= x < w
      ensures InSp(buffer[..w * h], buffer[w * h..], w, y, x)
    {
      PixelInImage(w, h, y, x);
      ChromaFits(w, h, y, x);
    }
  }

  lemma ChromaFits(w: nat, h: nat, y: nat, x: nat)
    requires y < h && x < w
    ensures SpChroma(w, y, x) + 1 < 2 * Blocks(w, h)
  {
    PairFits(y / 2, x / 2, w, BlocksPerRow(w), BlocksPerRow(h));
  }

  lemma PairFits(r: nat, c: nat, w: nat, bw: nat, bh: nat)
    requires r < bh && c < bw && w <= 2 * bw
    ensures r * w + 2 * c + 1 < 2 * (bw * bh)
  {
    MulMonotone(w, 2 * bw, r);
    RowFits(r, bh, 2 * bw);
    DoubledRows(bh, bw, 2 * bw);
  }

  /** There and back. */
  method ThereAndBack(input: seq<uint32>, w: nat, h: nat) returns (output: array<uint32>)
    requires 0 < w && 0 < h && |input| == w * h
    ensures fresh(output) && output.Length == |input|
    ensures AllGray(FromArgbImage(input)) ==>
      ((forall i :: 0 <= i < |input| ==> ComesBack(FromArgb(input[i]), output[i])) <==> w % 2 == 0 && h % 2 == 0)
    ensures w % 2 == 0 && h % 2 == 0 && BlocksOfOneColor(FromArgbImage(input), w, h) ==>
      forall i :: 0 <= i < |input| ==> Close(FromArgb(input[i]), output[i])
  {
    var buffer := new uint8[YuvSize(w, h)];
    ConvertArgb8888(input, buffer, w, h);
    EncodedIsReadable(buffer[..], w, h);
    output := new uint32[|input|];
    ConvertYuv420SpToArgb8888(buffer[..][..w * h], buffer[..][w * h..], output, w, h);
    assert IsDecoded(output[..], buffer[..], w, h);
    if AllGray(FromArgbImage(input)) {
      GrayRoundTripIff(FromArgbImage(input), buffer[..], output[..], w, h);
    }
    if w % 2 == 0 && h % 2 == 0 && BlocksOfOneColor(FromArgbImage(input), w, h) {
      ColorsComeBack(FromArgbImage(input), buffer[..], output[..], w, h);
    }
  }
}
