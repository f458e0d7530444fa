/** Conversion of YUV 4:2:0 images to packed RGB (jni/yuv2rgb.cc): planar with strides, semi-planar,
    semi-planar at half size, and semi-planar to 5/6/5 bits. */
module Argb {
  import opened Arith
  import opened Yuv

  // ---- One pixel ----

  const MAX_CHANNEL := 262143

  /** Channel values before normalisation, in 18 bits. */
  datatype Channels = Channels(r: int, g: int, b: int)

  function Clamp(v: int): (c: int)
    ensures 0 <= c <= MAX_CHANNEL
  {
    if v < 0 then 0 else if MAX_CHANNEL < v then MAX_CHANNEL else v
  }

  function ToChannels(nY: int, nU: int, nV: int): Channels {
    var y, u, v := if nY < 16 then 0 else nY - 16, nU - 128, nV - 128;
    Channels(Clamp(1192 * y + 1634 * v), Clamp(1192 * y - 833 * v - 400 * u), Clamp(1192 * y + 2066 * u))
  }

  predicate InRange(c: Channels) {
    0 <= c.r <= MAX_CHANNEL && 0 <= c.g <= MAX_CHANNEL && 0 <= c.b <= MAX_CHANNEL
  }

  /** The top eight bits of every channel, under an alpha of 255. */
  function Pack8888(c: Channels): uint32
    requires InRange(c)
  {
    0xff00_0000 + c.r / 0x400 % 0x100 * 0x1_0000 + c.g / 0x400 % 0x100 * 0x100 + c.b / 0x400 % 0x100
  }

  /** The top five, six and five bits. */
  function Pack565(c: Channels): uint16
    requires InRange(c)
  {
    c.r / 0x2000 % 0x20 * 0x800 + c.g / 0x1000 % 0x40 * 0x20 + c.b / 0x2000 % 0x20
  }

  function Yuv2Rgb(nY: int, nU: int, nV: int): uint32 {
    Pack8888(ToChannels(nY, nU, nV))
  }

  /** An ARGB pixel with its channels cut to 5, 6 and 5 bits. */
  function Truncated(p: uint32): uint16 {
    var c := FromArgb(p);
    c.r / 8 * 0x800 + c.g / 4 * 0x20 + c.b / 8
  }

  lemma UnpackPacked(c: Channels)
    requires InRange(c)
    ensures FromArgb(Pack8888(c)) == Rgb(c.r / 0x400, c.g / 0x400, c.b / 0x400) && Pack8888(c) / 0x100_0000 == 0xff
  {
    TopByte(c.r);
    TopByte(c.g);
    TopByte(c.b);
    Unpack(c.r / 0x400, c.g / 0x400, c.b / 0x400);
  }

  /** x is the top byte of an 18-bit channel value v, cut off at both ends. */
  predicate IsChannel(x: int, v: int) {
    && (v < 0 ==> x == 0) && (0x4_0000 <= v ==> x == 0xff)
    && (0 <= v < 0x4_0000 ==> 0x400 * x <= v < 0x400 * (x + 1))
  }

  lemma ClampIsChannel(v: int)
    ensures IsChannel(Clamp(v) / 0x400, v)
  {
  }

  /** One pixel spelled out. A luma below black counts as black, and alpha is full. */
  lemma PixelSpelled(nY: int, nU: int, nV: int)
    ensures var p := Yuv2Rgb(nY, nU, nV); var c := FromArgb(p); var y := 1192 * (if nY < 16 then 0 else nY - 16);
      && p / 0x100_0000 == 0xff
      && IsChannel(c.r, y + 1634 * (nV - 128))
      && IsChannel(c.g, y - 833 * (nV - 128) - 400 * (nU - 128))
      && IsChannel(c.b, y + 2066 * (nU - 128))
  {
    var y := 1192 * (if nY < 16 then 0 else nY - 16);
    UnpackPacked(ToChannels(nY, nU, nV));
    ClampIsChannel(y + 1634 * (nV - 128));
    ClampIsChannel(y - 833 * (nV - 128) - 400 * (nU - 128));
    ClampIsChannel(y + 2066 * (nU - 128));
  }

  lemma TopByte(v: int)
    requires 0 <= v <= MAX_CHANNEL
    ensures 0 <= v / 0x400 < 0x100 && v / 0x400 % 0x100 == v / 0x400
  {
  }

  lemma Unpack(r: uint8, g: uint8, b: uint8)
    ensures var p := 0xff00_0000 + r * 0x1_0000 + g * 0x100 + b; FromArgb(p) == Rgb(r, g, b) && p / 0x100_0000 == 0xff
  {
    var p := 0xff00_0000 + r * 0x1_0000 + g * 0x100 + b;
    assert p / 0x1_0000 == 0xff00 + r && p / 0x100 == 0xff_0000 + r * 0x100 + g;
  }

  /** The 5/6/5 pixel is the ARGB pixel truncated. */
  lemma Pack565Truncates(c: Channels)
    requires InRange(c)
    ensures Pack565(c) == Truncated(Pack8888(c))
  {
    UnpackPacked(c);
    ShiftTwice(c.r);
    ShiftTwice(c.g);
    ShiftTwice(c.b);
  }

  /** Red on top, then green, then blue. */
  lemma TruncatedSpelled(p: uint32)
    ensures var t, c := Truncated(p), FromArgb(p); t / 0x800 == c.r / 8 && t / 0x20 % 0x40 == c.g / 4 && t % 0x20 == c.b / 8
  {
    var c := FromArgb(p);
    Fields(c.r / 8, c.g / 4, c.b / 8);
  }

  lemma Fields(r: nat, g: nat, b: nat)
    requires r < 0x20 && g < 0x40 && b < 0x20
    ensures var t := r * 0x800 + g * 0x20 + b; t / 0x800 == r && t / 0x20 % 0x40 == g && t % 0x20 == b
  {
    assert (r * 0x800 + g * 0x20 + b) / 0x20 == r * 0x40 + g;
  }

  lemma ShiftTwice(v: int)
    requires 0 <= v <= MAX_CHANNEL
    ensures v / 0x400 / 8 == v / 0x2000 && v / 0x2000 % 0x20 == v / 0x2000
    ensures v / 0x400 / 4 == v / 0x1000 && v / 0x1000 % 0x40 == v / 0x1000
  {
  }

  // ---- Reading a pixel's samples ----

  datatype Strides = Strides(yRow: int, uvRow: int, uvPixel: int)

  function LumaIndex(s: Strides, y: nat, x: nat): int {
    s.yRow * y + x
  }

  function ChromaIndex(s: Strides, y: nat, x: nat): int {
    s.uvRow * (y / 2) + x / 2 * s.uvPixel
  }

  /** The samples of the pixel at row y, column x lie inside the planes. */
  predicate InPlanes(yData: seq<uint8>, uData: seq<uint8>, vData: seq<uint8>, s: Strides, y: nat, x: nat) {
    && 0 <= LumaIndex(s, y, x) < |yData|
    && 0 <= ChromaIndex(s, y, x) < |uData| && ChromaIndex(s, y, x) < |vData|
  }

  ghost predicate Readable(yData: seq<uint8>, uData: seq<uint8>, vData: seq<uint8>, s: Strides, w: nat, h: nat) {
    forall y, x :: 0 <= y < h && 0 <= x < w ==> InPlanes(yData, uData, vData, s, y, x)
  }

  function StridedPixel(yData: seq<uint8>, uData: seq<uint8>, vData: seq<uint8>, s: Strides, y: nat, x: nat): uint32
    requires InPlanes(yData, uData, vData, s, y, x)
  {
    Yuv2Rgb(yData[LumaIndex(s, y, x)], uData[ChromaIndex(s, y, x)], vData[ChromaIndex(s, y, x)])
  }

  /** Where the semi-planar converters find the V byte of a pixel's block; U follows it. */
  function SpChroma(w: nat, y: nat, x: nat): nat {
    y / 2 * w + 2 * (x / 2)
  }

  predicate InSp(yData: seq<uint8>, uvData: seq<uint8>, w: nat, y: nat, x: nat) {
    y * w + x < |yData| && SpChroma(w, y, x) + 1 < |uvData|
  }

  ghost predicate SpReadable(yData: seq<uint8>, uvData: seq<uint8>, w: nat, h: nat) {
    forall y, x :: 0 <= y < h && 0 <= x < w ==> InSp(yData, uvData, w, y, x)
  }

  function SpChannels(yData: seq<uint8>, uvData: seq<uint8>, w: nat, y: nat, x: nat): Channels
    requires InSp(yData, uvData, w, y, x)
  {
    ToChannels(yData[y * w + x], uvData[SpChroma(w, y, x) + 1], uvData[SpChroma(w, y, x)])
  }

  /** Pixel x of row y, by its index. */
  lemma PlaceOf(w: nat, h: nat, y: nat, x: nat)
    requires x < w && y < h
    ensures RowStart(y, w) + x < w * h && RowStart(y, w) + x == y * w + x
    ensures (RowStart(y, w) + x) / w == y && (RowStart(y, w) + x) % w == x
  {
    RowStartIs(y, w);
    PixelInImage(w, h, y, x);
    DivisionUnique(y * w + x, w, y, x);
  }

  lemma RowsFill(w: nat, h: nat)
    ensures RowStart(h, w) == w * h
  {
    RowStartIs(h, w);
  }

  // ---- Planar, with strides ----

  /** pixel is what the samples at row i / w, column i % w convert to. */
  ghost predicate StridedAt(pixel: uint32, yData: seq<uint8>, uData: seq<uint8>, vData: seq<uint8>, s: Strides, w: nat, i: nat)
    requires 0 < w
  {
    InPlanes(yData, uData, vData, s, i / w, i % w) && pixel == StridedPixel(yData, uData, vData, s, i / w, i % w)
  }

  method ConvertYuv420Row(yData: seq<uint8>, uData: seq<uint8>, vData: seq<uint8>, output: array<uint32>,
                          w: nat, ghost h: nat, s: Strides, y: nat, start: nat)
    requires y < h && 0 < w && output.Length == w * h && start == RowStart(y, w)
    requires Readable(yData, uData, vData, s, w, h)
    requires forall i :: 0 <= i < start && i < output.Length ==> StridedAt(output[i], yData, uData, vData, s, w, i)
    modifies output
    ensures forall i :: 0 <= i < start + w && i < output.Length ==> StridedAt(output[i], yData, uData, vData, s, w, i)
  {
    var uvRowStart := s.uvRow * (y / 2);
    var pY := s.yRow * y;
    for x := 0 to w
      invariant forall i :: 0 <= i < start + x && i < output.Length ==> StridedAt(output[i], yData, uData, vData, s, w, i)
    {
      PlaceOf(w, h, y, x);
      assert InPlanes(yData, uData, vData, s, y, x);
      var uvOffset := uvRowStart + x / 2 * s.uvPixel;
      output[start + x] := Yuv2Rgb(yData[pY + x], uData[uvOffset], vData[uvOffset]);
    }
  }

  /** Pixel x of row y of the image is made of the luma x bytes into row y of its plane and of the chroma x / 2 pixel
      strides into row y / 2 of theirs. */
  ghost predicate FromPlanes(img: seq<uint32>, yData: seq<uint8>, uData: seq<uint8>, vData: seq<uint8>, s: Strides, w: nat, y: nat, x: nat) {
    var luma, chroma := y * s.yRow + x, y / 2 * s.uvRow + x / 2 * s.uvPixel;
    && 0 <= luma < |yData| && 0 <= chroma < |uData| && chroma < |vData|
    && 0 <= y * w + x < |img| && img[y * w + x] == Yuv2Rgb(yData[luma], uData[chroma], vData[chroma])
  }

  lemma StridedIsFromPlanes(img: seq<uint32>, yData: seq<uint8>, uData: seq<uint8>, vData: seq<uint8>, s: Strides, w: nat, h: nat, y: nat, x: nat)
    requires |img| == w * h && y < h && x < w
    requires forall i :: 0 <= i < |img| ==> StridedAt(img[i], yData, uData, vData, s, w, i)
    ensures FromPlanes(img, yData, uData, vData, s, w, y, x)
  {
    PlaceOf(w, h, y, x);
    assert StridedAt(img[y * w + x], yData, uData, vData, s, w, y * w + x);
    IndicesSpelled(s, y, x);
    PixelOfPlanes(img[y * w + x], yData, uData, vData, s, y, x, y * s.yRow + x, y / 2 * s.uvRow + x / 2 * s.uvPixel);
  }

  lemma IndicesSpelled(s: Strides, y: nat, x: nat)
    ensures LumaIndex(s, y, x) == y * s.yRow + x && ChromaIndex(s, y, x) == y / 2 * s.uvRow + x / 2 * s.uvPixel
  {
  }

  lemma PixelOfPlanes(pixel: uint32, yData: seq<uint8>, uData: seq<uint8>, vData: seq<uint8>, s: Strides, y: nat, x: nat, luma: int, chroma: int)
    requires InPlanes(yData, uData, vData, s, y, x) && pixel == StridedPixel(yData, uData, vData, s, y, x)
    requires luma == LumaIndex(s, y, x) && chroma == ChromaIndex(s, y, x)
    ensures 0 <= luma < |yData| && 0 <= chroma < |uData| && chroma < |vData|
    ensures pixel == Yuv2Rgb(yData[luma], uData[chroma], vData[chroma])
  {
  }

  method ConvertYuv420ToArgb8888(yData: seq<uint8>, uData: seq<uint8>, vData: seq<uint8>, output: array<uint32>,
                                 width: nat, height: nat, s: Strides)
    requires output.Length == width * height && Readable(yData, uData, vData, s, width, height)
    modifies output
    ensures forall i :: 0 <= i < output.Length ==> 0 < width && StridedAt(output[i], yData, uData, vData, s, width, i)
    ensures forall y, x :: 0 <= y < height && 0 <= x < width ==> FromPlanes(output[..], yData, uData, vData, s, width, y, x)
  {
    if width == 0 {
      return;
    }
    var out: nat := 0;
    for y := 0 to height
      invariant out == RowStart(y, width)
      invariant forall i :: 0 <= i < out && i < output.Length ==> StridedAt(output[i], yData, uData, vData, s, width, i)
    {
      ConvertYuv420Row(yData, uData, vData, output, width, height, s, y, out);
      out := out + width;
    }
    RowsFill(width, height);
    forall y, x | 0 <= y < height && 0 <= x < width
      ensures FromPlanes(output[..], yData, uData, vData, s, width, y, x)
    {
      StridedIsFromPlanes(output[..], yData, uData, vData, s, width, height, y, x);
    }
  }

  // ---- Semi-planar ----

  ghost predicate SpAt(pixel: uint32, yData: seq<uint8>, uvData: seq<uint8>, w: nat, i: nat)
    requires 0 < w
  {
    InSp(yData, uvData, w, i / w, i % w) && pixel == Pack8888(SpChannels(yData, uvData, w, i / w, i % w))
  }

  ghost predicate Sp565At(pixel: uint16, yData: seq<uint8>, uvData: seq<uint8>, w: nat, i: nat)
    requires 0 < w
  {
    InSp(yData, uvData, w, i / w, i % w) && pixel == Pack565(SpChannels(yData, uvData, w, i / w, i % w))
  }

  /** One pixel's samples, read through the luma cursor. */
  method SpSamples(yData: seq<uint8>, uvData: seq<uint8>, w: nat, ghost h: nat, y: nat, x: nat, pY: nat)
    returns (nY: uint8, nU: uint8, nV: uint8)
    requires x < w && y < h && pY == RowStart(y, w) + x && SpReadable(yData, uvData, w, h)
    ensures pY / w == y && pY % w == x && InSp(yData, uvData, w, y, x)
    ensures ToChannels(nY, nU, nV) == SpChannels(yData, uvData, w, y, x)
  {
    PlaceOf(w, h, y, x);
    assert InSp(yData, uvData, w, y, x);
    var offset := y / 2 * w + 2 * (x / 2);
    assert offset == SpChroma(w, y, x);
    nY, nV, nU := yData[pY], uvData[offset], uvData[offset + 1];
  }

  method ConvertYuv420SpRow(yData: seq<uint8>, uvData: seq<uint8>, output: array<uint32>, w: nat, ghost h: nat, y: nat, start: nat)
    requires y < h && 0 < w && output.Length == w * h && start == RowStart(y, w) && SpReadable(yData, uvData, w, h)
    requires forall i :: 0 <= i < start && i < output.Length ==> SpAt(output[i], yData, uvData, w, i)
    modifies output
    ensures forall i :: 0 <= i < start + w && i < output.Length ==> SpAt(output[i], yData, uvData, w, i)
  {
    for x := 0 to w
      invariant forall i :: 0 <= i < start + x && i < output.Length ==> SpAt(output[i], yData, uvData, w, i)
    {
      PlaceOf(w, h, y, x);
      var nY, nU, nV := SpSamples(yData, uvData, w, h, y, x, start + x);
      output[start + x] := Yuv2Rgb(nY, nU, nV);
    }
  }

  method ConvertYuv420SpToArgb8888(yData: seq<uint8>, uvData: seq<uint8>, output: array<uint32>, width: nat, height: nat)
    requires output.Length == width * height && SpReadable(yData, uvData, width, height)
    modifies output
    ensures forall i :: 0 <= i < output.Length ==> 0 < width && SpAt(output[i], yData, uvData, width, i)
  {
    if width == 0 {
      return;
    }
    var pY: nat := 0;
    for y := 0 to height
      invariant pY == RowStart(y, width)
      invariant forall i :: 0 <= i < pY && i < output.Length ==> SpAt(output[i], yData, uvData, width, i)
    {
      ConvertYuv420SpRow(yData, uvData, output, width, height, y, pY);
      pY := pY + width;
    }
    RowsFill(width, height);
  }

  method Convert565Row(yData: seq<uint8>, uvData: seq<uint8>, output: array<uint16>, w: nat, ghost h: nat, y: nat, start: nat)
    requires y < h && 0 < w && output.Length == w * h && start == RowStart(y, w) && SpReadable(yData, uvData, w, h)
    requires forall i :: 0 <= i < start && i < output.Length ==> Sp565At(output[i], yData, uvData, w, i)
    modifies output
    ensures forall i :: 0 <= i < start + w && i < output.Length ==> Sp565At(output[i], yData, uvData, w, i)
  {
    for x := 0 to w
      invariant forall i :: 0 <= i < start + x && i < output.Length ==> Sp565At(output[i], yData, uvData, w, i)
    {
      PlaceOf(w, h, y, x);
      var nY, nU, nV := SpSamples(yData, uvData, w, h, y, x, start + x);
      output[start + x] := Pack565(ToChannels(nY, nU, nV));
    }
  }

  /** One buffer holds the luma plane and, behind it, the chroma plane. */
  method ConvertYuv420SpToRgb565(input: seq<uint8>, output: array<uint16>, width: nat, height: nat)
    requires output.Length == width * height <= |input|
    requires SpReadable(input[..width * height], input[width * height..], width, height)
    modifies output
    ensures forall i :: 0 <= i < output.Length ==>
      0 < width && Sp565At(output[i], input[..width * height], input[width * height..], width, i)
  {
    if width == 0 {
      return;
    }
    var yData, uvData := input[..width * height], input[width * height..];
    var pY: nat := 0;
    for y := 0 to height
      invariant pY == RowStart(y, width)
      invariant forall i :: 0 <= i < pY && i < output.Length ==> Sp565At(output[i], yData, uvData, width, i)
    {
      Convert565Row(yData, uvData, output, width, height, y, pY);
      pY := pY + width;
    }
    RowsFill(width, height);
  }

  // ---- The converters agree ----

  /** With row strides of one width, a pixel stride of two, and the U plane starting one byte into the
      V plane, the strided converter is the semi-planar one, pixel by pixel. */
  lemma StridedIsSemiPlanar(pixel: uint32, yData: seq<uint8>, uvData: seq<uint8>, w: nat, i: nat)
    requires 0 < w && 1 <= |uvData|
    ensures StridedAt(pixel, yData, uvData[1..], uvData, Strides(w, w, 2), w, i) <==> SpAt(pixel, yData, uvData, w, i)
  {
    var y, x, s := i / w, i % w, Strides(w, w, 2);
    assert LumaIndex(s, y, x) == y * w + x && ChromaIndex(s, y, x) == SpChroma(w, y, x);
  }

  /** Every pixel of the 5/6/5 image is the truncation of the same pixel of the ARGB image. */
  lemma Rgb565IsTruncatedArgb(a: uint32, b: uint16, yData: seq<uint8>, uvData: seq<uint8>, w: nat, i: nat)
    requires 0 < w && SpAt(a, yData, uvData, w, i)
    ensures Sp565At(b, yData, uvData, w, i) <==> b == Truncated(a)
  {
    SameChannels(a, b, SpChannels(yData, uvData, w, i / w, i % w));
  }

  lemma SameChannels(a: uint32, b: uint16, c: Channels)
    requires InRange(c) && a == Pack8888(c)
    ensures b == Pack565(c) <==> b == Truncated(a)
  {
    Pack565Truncates(c);
  }

  /** So the three converters agree on whole images: the first two make the same one, the third its truncation. */
  lemma ConvertersAgree(strided: seq<uint32>, sp: seq<uint32>, sp565: seq<uint16>, yData: seq<uint8>, uvData: seq<uint8>, w: nat)
    requires 0 < w && 1 <= |uvData| && |strided| == |sp| == |sp565|
    requires forall i :: 0 <= i < |sp| ==> StridedAt(strided[i], yData, uvData[1..], uvData, Strides(w, w, 2), w, i)
    requires forall i :: 0 <= i < |sp| ==> SpAt(sp[i], yData, uvData, w, i) && Sp565At(sp565[i], yData, uvData, w, i)
    ensures strided == sp && forall i :: 0 <= i < |sp| ==> sp565[i] == Truncated(sp[i])
  {
    forall i | 0 <= i < |sp|
      ensures strided[i] == sp[i] && sp565[i] == Truncated(sp[i])
    {
      StridedIsSemiPlanar(strided[i], yData, uvData, w, i);
      Rgb565IsTruncatedArgb(sp[i], sp565[i], yData, uvData, w, i);
    }
  }

  /** Pixel x of row y of the image is made of its own luma and of the pair of its block, V before U. */
  ghost predicate FromPairs(img: seq<uint32>, yData: seq<uint8>, uvData: seq<uint8>, w: nat, y: nat, x: nat) {
    var v := y / 2 * w + 2 * (x / 2);
    && 0 <= y * w + x < |yData| && v + 1 < |uvData|
    && y * w + x < |img| && img[y * w + x] == Yuv2Rgb(yData[y * w + x], uvData[v + 1], uvData[v])
  }

  lemma SpIsFromPairs(img: seq<uint32>, yData: seq<uint8>, uvData: seq<uint8>, w: nat, h: nat, y: nat, x: nat)
    requires |img| == w * h && y < h && x < w
    requires forall i :: 0 <= i < |img| ==> SpAt(img[i], yData, uvData, w, i)
    ensures FromPairs(img, yData, uvData, w, y, x)
  {
    PlaceOf(w, h, y, x);
    assert SpAt(img[y * w + x], yData, uvData, w, y * w + x);
  }

  // ---- Semi-planar, at half size ----

  /** The luma cursor of the half-size loop at row y, column x: each row advances it by two for each of
      its w / 2 pixels, and then by the width. */
  function HalfLuma(w: nat, y: nat, x: nat): nat {
    RowStart(y, 2 * (w / 2) + w) + 2 * x
  }

  function HalfChroma(w: nat, y: nat, x: nat): nat {
    RowStart(y, 2 * (w / 2)) + 2 * x
  }

  lemma HalfNextRow(w: nat, y: nat)
    ensures HalfLuma(w, y + 1, 0) == HalfLuma(w, y, 0) + 2 * (w / 2) + w
    ensures HalfChroma(w, y + 1, 0) == HalfChroma(w, y, 0) + 2 * (w / 2)
    ensures RowStart(y + 1, w / 2) == RowStart(y, w / 2) + w / 2
  {
  }

  predicate InHalf(input: seq<uint8>, w: nat, h: nat, y: nat, x: nat) {
    HalfLuma(w, y, x) + w + 1 < |input| && w * h + HalfChroma(w, y, x) + 1 < |input|
  }

  function Mean(a: int, b: int, c: int, d: int): (m: int)
    ensures 4 * m <= a + b + c + d < 4 * m + 4
  {
    (a + b + c + d) / 4
  }

  /** The mean of the four lumas under the cursor, with the chroma under its cursor. */
  function HalfPixel(input: seq<uint8>, w: nat, h: nat, y: nat, x: nat): uint32
    requires InHalf(input, w, h, y, x)
  {
    var p, c := HalfLuma(w, y, x), w * h + HalfChroma(w, y, x);
    Yuv2Rgb(Mean(input[p], input[p + 1], input[p + w], input[p + w + 1]), input[c + 1], input[c])
  }

  ghost predicate HalfAt(pixel: uint32, input: seq<uint8>, w: nat, h: nat, i: nat)
    requires 2 <= w
  {
    InHalf(input, w, h, i / (w / 2), i % (w / 2)) && pixel == HalfPixel(input, w, h, i / (w / 2), i % (w / 2))
  }

  /** The cursors stay inside a buffer with room for both planes. */
  lemma HalfCursorsInside(input: seq<uint8>, w: nat, h: nat, y: nat, x: nat)
    requires w * h + 2 * (w / 2 * (h / 2)) <= |input| && y < h / 2 && x < w / 2
    ensures InHalf(input, w, h, y, x)
  {
    var hw, hh := w / 2, h / 2;
    RowStartIs(y, 2 * hw + w);
    RowStartIs(y, 2 * hw);
    RowFits(y, hh, 2 * hw + w);
    RowFits(y, hh, 2 * hw);
    HalfRowsFit(w, h);
  }

  lemma RowFits(y: nat, rows: nat, size: nat)
    requires y < rows
    ensures y * size + size <= rows * size
  {
    MulMonotone(y + 1, rows, size);
    NextRow(y, size);
  }

  lemma HalfRowsFit(w: nat, h: nat)
    ensures h / 2 * (2 * (w / 2) + w) <= w * h
    ensures h / 2 * (2 * (w / 2)) == 2 * (w / 2 * (h / 2))
  {
    MulMonotone(2 * (w / 2) + w, 2 * w, h / 2);
    MulMonotone(2 * (h / 2), h, w);
    assert h / 2 * (2 * w) == 2 * (h / 2) * w;
  }

  method ConvertHalfRow(input: seq<uint8>, output: array<uint32>, w: nat, h: nat, y: nat, pY: nat, pUV: nat, start: nat)
    requires 2 <= w && y < h / 2 && output.Length == w / 2 * (h / 2) && start == RowStart(y, w / 2)
    requires w * h + 2 * (w / 2 * (h / 2)) <= |input|
    requires pY == HalfLuma(w, y, 0) && pUV == w * h + HalfChroma(w, y, 0)
    requires forall i :: 0 <= i < start && i < output.Length ==> HalfAt(output[i], input, w, h, i)
    modifies output
    ensures forall i :: 0 <= i < start + w / 2 && i < output.Length ==> HalfAt(output[i], input, w, h, i)
  {
    for x := 0 to w / 2
      invariant forall i :: 0 <= i < start + x && i < output.Length ==> HalfAt(output[i], input, w, h, i)
    {
      PlaceOf(w / 2, h / 2, y, x);
      output[start + x] := ReadHalfPixel(input, w, h, y, x, pY + 2 * x, pUV + 2 * x);
    }
  }

  /** One pixel, through the two cursors. */
  method ReadHalfPixel(input: seq<uint8>, w: nat, ghost h: nat, ghost y: nat, ghost x: nat, pY: nat, pUV: nat) returns (pixel: uint32)
    requires y < h / 2 && x < w / 2 && w * h + 2 * (w / 2 * (h / 2)) <= |input|
    requires pY == HalfLuma(w, y, x) && pUV == w * h + HalfChroma(w, y, x)
    ensures InHalf(input, w, h, y, x) && pixel == HalfPixel(input, w, h, y, x)
  {
    HalfCursorsInside(input, w, h, y, x);
    var nY := Mean(input[pY], input[pY + 1], input[pY + w], input[pY + w + 1]);
    pixel := Yuv2Rgb(nY, input[pUV + 1], input[pUV]);
  }

  method ConvertYuv420SpHalfSize(input: seq<uint8>, output: array<uint32>, width: nat, height: nat)
    requires output.Length == width / 2 * (height / 2)
    requires width * height + 2 * (width / 2 * (height / 2)) <= |input|
    modifies output
    ensures forall i :: 0 <= i < output.Length ==> 2 <= width && HalfAt(output[i], input, width, height, i)
  {
    if width < 2 {
      return;
    }
    var pY: nat, pUV: nat, out: nat := 0, width * height, 0;
    for y := 0 to height / 2
      invariant pY == HalfLuma(width, y, 0) && pUV == width * height + HalfChroma(width, y, 0)
      invariant out == RowStart(y, width / 2)
      invariant forall i :: 0 <= i < out && i < output.Length ==> HalfAt(output[i], input, width, height, i)
    {
      ConvertHalfRow(input, output, width, height, y, pY, pUV, out);
      HalfNextRow(width, y);
      pY := pY + 2 * (width / 2) + width;
      pUV, out := pUV + 2 * (width / 2), out + width / 2;
    }
    RowsFill(width / 2, height / 2);
  }

  /** At row y, column x the luma cursor is on the first pixel of the 2x2 block, and the chroma cursor on the
      pair that the full-size converters use for that block. */
  predicate OnBlock(w: nat, y: nat, x: nat) {
    HalfLuma(w, y, x) == 2 * y * w + 2 * x && HalfChroma(w, y, x) == SpChroma(w, 2 * y, 2 * x)
  }

  /** Both cursors of the half-size loop are on the block of every pixel exactly when the width is even, or
      there is at most one row of pixels. */
  lemma HalfCursorsOnBlockIff(w: nat, h: nat)
    requires 2 <= w
    ensures (forall y, x :: 0 <= y < h / 2 && 0 <= x < w / 2 ==> OnBlock(w, y, x)) <==> w % 2 == 0 || h / 2 <= 1
  {
    forall y, x | 0 <= y < h / 2 && 0 <= x < w / 2
      ensures OnBlock(w, y, x) <==> w % 2 == 0 || y == 0
    {
      HalfLumaIs(w, y, x);
      HalfChromaIs(w, y, x);
    }
    if w % 2 != 0 && 1 < h / 2 {
      assert !OnBlock(w, 1, 0);
    }
  }

  /** With an odd width both cursors fall behind by one more byte in each row. */
  lemma HalfLumaIs(w: nat, y: nat, x: nat)
    ensures HalfLuma(w, y, x) == 2 * y * w + 2 * x - (if w % 2 == 0 then 0 else y)
  {
    RowStartIs(y, 2 * (w / 2) + w);
    if w % 2 == 0 {
      assert y * (w + w) == 2 * y * w;
    } else {
      assert y * (2 * w - 1) == 2 * y * w - y;
    }
  }

  lemma HalfChromaIs(w: nat, y: nat, x: nat)
    ensures HalfChroma(w, y, x) == SpChroma(w, 2 * y, 2 * x) - (if w % 2 == 0 then 0 else y)
  {
    RowStartIs(y, 2 * (w / 2));
    if w % 2 != 0 {
      assert y * (w - 1) == y * w - y;
    }
  }

  /** For even widths a half-size pixel has the mean luma of its 2x2 block and the block's chroma. */
  lemma HalfSizeAveragesBlocks(input: seq<uint8>, w: nat, h: nat, y: nat, x: nat)
    requires 2 <= w && w % 2 == 0 && y < h / 2 && x < w / 2 && w * h + 2 * (w / 2 * (h / 2)) <= |input|
    ensures InHalf(input, w, h, y, x)
    ensures var p := 2 * y * w + 2 * x; var c := w * h + SpChroma(w, 2 * y, 2 * x);
      && p + w + 1 < w * h && c + 1 < |input|
      && HalfPixel(input, w, h, y, x)
         == Yuv2Rgb(Mean(input[p], input[p + 1], input[p + w], input[p + w + 1]), input[c + 1], input[c])
  {
    HalfCursorsInside(input, w, h, y, x);
    HalfLumaIs(w, y, x);
    HalfChromaIs(w, y, x);
    BlockInImage(w, h, y, x);
  }

  /** The full-size converter uses one chroma for the four pixels of a 2x2 block. */
  lemma BlockSharesChroma(w: nat, y: nat, x: nat)
    ensures SpChroma(w, 2 * y, 2 * x) == SpChroma(w, 2 * y, 2 * x + 1)
         == SpChroma(w, 2 * y + 1, 2 * x) == SpChroma(w, 2 * y + 1, 2 * x + 1)
  {
  }

  lemma BlockInImage(w: nat, h: nat, y: nat, x: nat)
    requires y < h / 2 && x < w / 2
    ensures 2 * y * w + 2 * x + w + 1 < w * h
  {
    PixelInImage(w, h, 2 * y + 1, 2 * x + 1);
    NextRow(2 * y, w);
  }
}
