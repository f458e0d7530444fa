/** Conversion of RGB images to semi-planar YUV 4:2:0 (jni/rgb2yuv.cc): a plane of luma bytes, then
    one V and one U byte for each 2x2 block, accumulated pixel by pixel. */
module Yuv {
  import opened Arith

  type uint8 = x: int | 0 <= x < 0x100
  type uint16 = x: int | 0 <= x < 0x1_0000
  type uint32 = x: int | 0 <= x < 0x1_0000_0000

  datatype Rgb = Rgb(r: uint8, g: uint8, b: uint8)

  function FromArgb(p: uint32): Rgb {
    Rgb(p / 0x1_0000 % 0x100, p / 0x100 % 0x100, p % 0x100)
  }

  /** Five and six bit channels, stretched by repeating their high bits below. */
  function From565(p: uint16): Rgb {
    var r5, g6, b5 := p / 0x800 % 0x20, p / 0x20 % 0x40, p % 0x20;
    Rgb(r5 * 8 + r5 / 4, g6 * 4 + g6 / 16, b5 * 8 + b5 / 4)
  }

  /** Red is the high byte of the lower three, blue the low one. */
  lemma ArgbChannels()
    ensures FromArgb(0xffff_0000) == Rgb(255, 0, 0) && FromArgb(0xff00_ff00) == Rgb(0, 255, 0) && FromArgb(0xff00_00ff) == Rgb(0, 0, 255)
    ensures FromArgb(0x0102_0304) == Rgb(2, 3, 4)
  {
  }

  /** A stretched channel has on top the bits it was stretched from, and repeats them below. */
  lemma From565Spelled(p: uint16)
    ensures From565(p).r / 8 == p / 0x800 % 0x20 && From565(p).r % 8 == From565(p).r / 32
    ensures From565(p).g / 4 == p / 0x20 % 0x40 && From565(p).g % 4 == From565(p).g / 64
    ensures From565(p).b / 8 == p % 0x20 && From565(p).b % 8 == From565(p).b / 32
  {
    Stretched(p / 0x800 % 0x20);
    StretchedGreen(p / 0x20 % 0x40);
    Stretched(p % 0x20);
  }

  /** A channel of zeros becomes 0, and one of ones 255. */
  lemma From565Scale(p: uint16)
    ensures (From565(p).r == 0 <==> p / 0x800 % 0x20 == 0) && (From565(p).r == 255 <==> p / 0x800 % 0x20 == 0x1f)
    ensures (From565(p).g == 0 <==> p / 0x20 % 0x40 == 0) && (From565(p).g == 255 <==> p / 0x20 % 0x40 == 0x3f)
    ensures (From565(p).b == 0 <==> p % 0x20 == 0) && (From565(p).b == 255 <==> p % 0x20 == 0x1f)
  {
    From565Spelled(p);
  }

  lemma Stretched(v: nat)
    requires v < 0x20
    ensures var c := v * 8 + v / 4; c < 0x100 && c / 8 == v && c % 8 == c / 32
  {
  }

  lemma StretchedGreen(v: nat)
    requires v < 0x40
    ensures var c := v * 4 + v / 16; c < 0x100 && c / 4 == v && c % 4 == c / 64
  {
  }

  // ---- One pixel ----
  // Shifting right is dividing and rounding down, also for negative numbers.

  function Luma(c: Rgb): int {
    (66 * c.r + 129 * c.g + 25 * c.b + 128) / 0x100 + 16
  }

  /** A quarter of a pixel's V, or of its U. */
  function ChromaTerm(c: Rgb, u: bool): int {
    if u then (-38 * c.r - 74 * c.g + 112 * c.b + 128) / 0x400 + 32
    else (112 * c.r - 94 * c.g - 18 * c.b + 128) / 0x400 + 32
  }

  lemma TermRanges(c: Rgb, u: bool)
    ensures 16 <= Luma(c) <= 235 && 4 <= ChromaTerm(c, u) <= 60
  {
  }

  // ---- The whole image ----

  function BlocksPerRow(w: nat): nat {
    (w + 1) / 2
  }

  function Blocks(w: nat, h: nat): nat {
    BlocksPerRow(w) * BlocksPerRow(h)
  }

  function YuvSize(w: nat, h: nat): nat {
    w * h + 2 * Blocks(w, h)
  }

  /** What the pixel at row y, column x adds to its block when only the first n pixels count. */
  function TermAt(img: seq<Rgb>, w: nat, y: nat, x: nat, n: nat, u: bool): int
    requires n <= |img|
  {
    if x < w && y * w + x < n then ChromaTerm(img[y * w + x], u) else 0
  }

  /** The four terms of the block whose first pixel is at row y, column x. */
  function FourTerms(img: seq<Rgb>, w: nat, y: nat, x: nat, n: nat, u: bool): int
    requires n <= |img|
  {
    TermAt(img, w, y, x, n, u) + TermAt(img, w, y, x + 1, n, u)
    + TermAt(img, w, y + 1, x, n, u) + TermAt(img, w, y + 1, x + 1, n, u)
  }

  /** The sum over the up to four pixels of block k. */
  function BlockSum(img: seq<Rgb>, w: nat, k: nat, n: nat, u: bool): int
    requires n <= |img| && 0 < w
  {
    FourTerms(img, w, 2 * (k / BlocksPerRow(w)), 2 * (k % BlocksPerRow(w)), n, u)
  }

  lemma BlockSumBounds(img: seq<Rgb>, w: nat, k: nat, n: nat, u: bool)
    requires n <= |img| && 0 < w
    ensures 0 <= BlockSum(img, w, k, n, u) <= 240
  {
    var y, x := 2 * (k / BlocksPerRow(w)), 2 * (k % BlocksPerRow(w));
    TermBounds(img, w, y, x, n, u);
    TermBounds(img, w, y, x + 1, n, u);
    TermBounds(img, w, y + 1, x, n, u);
    TermBounds(img, w, y + 1, x + 1, n, u);
  }

  lemma TermBounds(img: seq<Rgb>, w: nat, y: nat, x: nat, n: nat, u: bool)
    requires n <= |img|
    ensures 0 <= TermAt(img, w, y, x, n, u) <= 60
    ensures x < w && y * w + x < n ==> 4 <= TermAt(img, w, y, x, n, u)
  {
    if x < w && y * w + x < n {
      TermRanges(img[y * w + x], u);
    }
  }

  /** A block whose four pixels are all in the image has V and U in the nominal range 16..240. */
  lemma FullBlockRange(img: seq<Rgb>, w: nat, h: nat, k: nat, u: bool)
    requires |img| == w * h && 0 < w
    requires 2 * (k / BlocksPerRow(w)) + 1 < h && 2 * (k % BlocksPerRow(w)) + 1 < w
    ensures 16 <= BlockSum(img, w, k, w * h, u) <= 240
  {
    var y, x := 2 * (k / BlocksPerRow(w)), 2 * (k % BlocksPerRow(w));
    PixelInImage(w, h, y, x);
    PixelInImage(w, h, y, x + 1);
    PixelInImage(w, h, y + 1, x);
    PixelInImage(w, h, y + 1, x + 1);
    TermBounds(img, w, y, x, w * h, u);
    TermBounds(img, w, y, x + 1, w * h, u);
    TermBounds(img, w, y + 1, x, w * h, u);
    TermBounds(img, w, y + 1, x + 1, w * h, u);
  }

  lemma PixelInImage(w: nat, h: nat, y: nat, x: nat)
    requires x < w && y < h
    ensures 0 <= y * w + x < w * h
  {
    MulMonotone(y + 1, h, w);
  }

  /** The converted image: every byte, as a function of the pixels alone. */
  function YuvByte(img: seq<Rgb>, w: nat, h: nat, i: nat): int
    requires |img| == w * h && i < YuvSize(w, h) && 0 < w
  {
    if i < w * h then Luma(img[i])
    else BlockSum(img, w, (i - w * h) / 2, w * h, (i - w * h) % 2 == 1)
  }

  lemma YuvBytesAreBytes(img: seq<Rgb>, w: nat, h: nat, i: nat)
    requires |img| == w * h && i < YuvSize(w, h) && 0 < w
    ensures 0 <= YuvByte(img, w, h, i) <= 240
  {
    if i < w * h {
      TermRanges(img[i], false);
    } else {
      BlockSumBounds(img, w, (i - w * h) / 2, w * h, (i - w * h) % 2 == 1);
    }
  }

  ghost predicate IsYuv(out: seq<uint8>, img: seq<Rgb>, w: nat, h: nat) {
    && |img| == w * h && |out| == YuvSize(w, h)
    && (0 < w ==> forall i :: 0 <= i < |out| ==> out[i] == YuvByte(img, w, h, i))
  }

  // ---- Accumulating into blocks ----

  /** blk[i] is the block of pixel i. The sum, over the first n pixels, of the terms of block k. */
  function SumOver(img: seq<Rgb>, blk: seq<nat>, k: nat, n: nat, u: bool): int
    requires n <= |img| == |blk|
  {
    if n == 0 then 0 else SumOver(img, blk, k, n - 1, u) + (if blk[n - 1] == k then ChromaTerm(img[n - 1], u) else 0)
  }

  /** What is in the buffer once the first n pixels have been written: their luma, and for every block
      that one of them belongs to the sums so far. */
  ghost predicate Written(out: seq<uint8>, img: seq<Rgb>, blk: seq<nat>, blocks: nat, n: nat) {
    && n <= |img| == |blk| && |out| == |img| + 2 * blocks
    && (forall i :: 0 <= i < n ==> out[i] == Luma(img[i]))
    && (forall k :: 0 <= k < blocks && k in blk[..n] ==>
          out[|img| + 2 * k] == SumOver(img, blk, k, n, false) && out[|img| + 2 * k + 1] == SumOver(img, blk, k, n, true))
  }

  lemma {:induction false} NothingYet(img: seq<Rgb>, blk: seq<nat>, k: nat, n: nat, u: bool)
    requires n <= |img| == |blk| && k !in blk[..n]
    ensures SumOver(img, blk, k, n, u) == 0
  {
    if 0 < n {
      assert blk[n - 1] in blk[..n];
      assert forall b :: b in blk[..n - 1] ==> b in blk[..n];
      NothingYet(img, blk, k, n - 1, u);
    }
  }

  /** What pixel n must leave in the buffer: its luma, and its terms added to its block's bytes, or
      stored there if it is the first of its block. */
  ghost predicate PixelStored(before: seq<uint8>, after: seq<uint8>, img: seq<Rgb>, n: nat, o: nat, first: bool) {
    && n < |img| <= o && o + 1 < |after| == |before|
    && after[n] == Luma(img[n])
    && after[o] == ChromaTerm(img[n], false) + (if first then 0 else before[o])
    && after[o + 1] == ChromaTerm(img[n], true) + (if first then 0 else before[o + 1])
    && forall i :: 0 <= i < |after| && i != n && i != o && i != o + 1 ==> after[i] == before[i]
  }

  lemma WrittenStep(before: seq<uint8>, after: seq<uint8>, img: seq<Rgb>, blk: seq<nat>, blocks: nat, n: nat)
    requires Written(before, img, blk, blocks, n) && n < |img| && blk[n] < blocks
    requires PixelStored(before, after, img, n, |img| + 2 * blk[n], blk[n] !in blk[..n])
    ensures Written(after, img, blk, blocks, n + 1)
  {
    assert blk[..n + 1] == blk[..n] + [blk[n]];
    forall k | 0 <= k < blocks && k in blk[..n + 1]
      ensures after[|img| + 2 * k] == SumOver(img, blk, k, n + 1, false)
      ensures after[|img| + 2 * k + 1] == SumOver(img, blk, k, n + 1, true)
    {
      if blk[n] !in blk[..n] {
        NothingYet(img, blk, blk[n], n, false);
        NothingYet(img, blk, blk[n], n, true);
      }
    }
  }

  // ---- The blocks of an image ----

  /** The index of the block that pixel n belongs to. */
  function BlockOf(n: nat, w: nat): nat
    requires 0 < w
  {
    (n / w / 2) * BlocksPerRow(w) + n % w / 2
  }

  /** blk lists the block of every pixel of a w by h image. */
  ghost predicate IsBlockMap(blk: seq<nat>, w: nat, h: nat) {
    0 < w && |blk| == w * h && forall n :: 0 <= n < |blk| ==> blk[n] == BlockOf(n, w)
  }

  /** Pixel n is in block k exactly when their rows and columns agree. */
  lemma BlockOfIs(n: nat, w: nat, k: nat)
    requires 0 < w
    ensures k == BlockOf(n, w) <==> k / BlocksPerRow(w) == n / w / 2 && k % BlocksPerRow(w) == n % w / 2
  {
    var bw := BlocksPerRow(w);
    Division(n, w);
    Division(k, bw);
    if k == BlockOf(n, w) {
      DivisionUnique(k, bw, n / w / 2, n % w / 2);
    }
  }

  lemma RowInImage(n: nat, w: nat, h: nat)
    requires 0 < w && n < w * h
    ensures n / w < h
  {
    Division(n, w);
    if h <= n / w {
      MulMonotone(h, n / w, w);
    }
  }

  lemma BlockOfInImage(n: nat, w: nat, h: nat)
    requires 0 < w && n < w * h
    ensures BlockOf(n, w) < Blocks(w, h)
  {
    RowInImage(n, w, h);
    Division(n, w);
    var row, bw := n / w / 2, BlocksPerRow(w);
    MulMonotone(row + 1, BlocksPerRow(h), bw);
    assert (row + 1) * bw == row * bw + bw;
  }

  /** One more pixel changes the term of exactly that pixel's place. */
  lemma TermStep(img: seq<Rgb>, w: nat, y: nat, x: nat, n: nat, u: bool)
    requires n < |img| && 0 < w
    ensures TermAt(img, w, y, x, n + 1, u)
         == TermAt(img, w, y, x, n, u) + (if y == n / w && x == n % w then ChromaTerm(img[n], u) else 0)
  {
    Division(n, w);
    if x < w && y * w + x == n {
      DivisionUnique(n, w, y, x);
    }
  }

  lemma FourTermsStep(img: seq<Rgb>, w: nat, row: nat, col: nat, n: nat, u: bool)
    requires n < |img| && 0 < w
    ensures FourTerms(img, w, 2 * row, 2 * col, n + 1, u) == FourTerms(img, w, 2 * row, 2 * col, n, u)
      + (if row == n / w / 2 && col == n % w / 2 then ChromaTerm(img[n], u) else 0)
  {
    TermStep(img, w, 2 * row, 2 * col, n, u);
    TermStep(img, w, 2 * row, 2 * col + 1, n, u);
    TermStep(img, w, 2 * row + 1, 2 * col, n, u);
    TermStep(img, w, 2 * row + 1, 2 * col + 1, n, u);
  }

  lemma BlockSumStep(img: seq<Rgb>, w: nat, k: nat, n: nat, u: bool)
    requires n < |img| && 0 < w
    ensures BlockSum(img, w, k, n + 1, u)
         == BlockSum(img, w, k, n, u) + (if BlockOf(n, w) == k then ChromaTerm(img[n], u) else 0)
  {
    FourTermsStep(img, w, k / BlocksPerRow(w), k % BlocksPerRow(w), n, u);
    BlockOfIs(n, w, k);
  }

  /** Adding up pixel by pixel gives the sum over the block's 2x2 pixels. */
  lemma {:induction false} SumIsBlockSum(img: seq<Rgb>, blk: seq<nat>, w: nat, h: nat, k: nat, n: nat, u: bool)
    requires IsBlockMap(blk, w, h) && n <= |img| == |blk|
    ensures SumOver(img, blk, k, n, u) == BlockSum(img, w, k, n, u)
    decreases n
  {
    if n == 0 {
      NoTerms(img, w, 2 * (k / BlocksPerRow(w)), 2 * (k % BlocksPerRow(w)), u);
    } else {
      SumIsBlockSum(img, blk, w, h, k, n - 1, u);
      BlockSumStep(img, w, k, n - 1, u);
    }
  }

  lemma NoTerms(img: seq<Rgb>, w: nat, y: nat, x: nat, u: bool)
    ensures FourTerms(img, w, y, x, 0, u) == 0
  {
    MulMonotone(0, y, w);
    MulMonotone(0, y + 1, w);
  }

  /** The pixel at an even row and an even column is the first of its block, and only that one. */
  lemma FirstOfBlock(blk: seq<nat>, w: nat, h: nat, y: nat, x: nat, n: nat)
    requires IsBlockMap(blk, w, h) && x < w && y < h && n == y * w + x < |blk|
    ensures blk[n] in blk[..n] <==> !(y % 2 == 0 && x % 2 == 0)
  {
    if y % 2 == 0 && x % 2 == 0 {
      forall i | 0 <= i < n
        ensures blk[i] != blk[n]
      {
        EarlierBlock(w, y, x, n, i);
      }
    } else {
      var p := BlockMate(w, y, x, n);
      assert blk[..n][p] == blk[p] == blk[n];
    }
  }

  /** A pixel at an odd row or column has an earlier pixel in its block: the one above, or the one to the left. */
  lemma BlockMate(w: nat, y: nat, x: nat, n: nat) returns (p: nat)
    requires x < w && n == y * w + x && !(y % 2 == 0 && x % 2 == 0)
    ensures p < n && BlockOf(p, w) == BlockOf(n, w)
  {
    DivisionUnique(n, w, y, x);
    NextRow(y - 1, w);
    if x % 2 == 0 {
      MulMonotone(0, y - 1, w);
      p := (y - 1) * w + x;
      DivisionUnique(p, w, y - 1, x);
    } else {
      p := n - 1;
      DivisionUnique(p, w, y, x - 1);
    }
    SameBlock(p, n, w);
  }

  lemma SameBlock(p: nat, n: nat, w: nat)
    requires 0 < w && p / w / 2 == n / w / 2 && p % w / 2 == n % w / 2
    ensures BlockOf(p, w) == BlockOf(n, w)
  {
  }

  /** The index of the first pixel of row y. */
  function RowStart(y: nat, w: nat): nat {
    if y == 0 then 0 else RowStart(y - 1, w) + w
  }

  lemma {:induction false} RowStartIs(y: nat, w: nat)
    ensures RowStart(y, w) == y * w == w * y
  {
    if 0 < y {
      RowStartIs(y - 1, w);
      NextRow(y - 1, w);
    }
  }

  lemma NextRow(y: int, w: nat)
    ensures (y + 1) * w == y * w + w
  {
  }

  /** A pixel before an even row and column lies in another block. */
  lemma EarlierBlock(w: nat, y: nat, x: nat, n: nat, i: nat)
    requires x < w && n == y * w + x && i < n && y % 2 == 0 && x % 2 == 0
    ensures BlockOf(i, w) != BlockOf(n, w)
  {
    DivisionUnique(n, w, y, x);
    EarlierPlace(w, y, x, i);
    BlockOfIs(i, w, BlockOf(n, w));
    BlockOfIs(n, w, BlockOf(n, w));
  }

  /** An earlier pixel is in an earlier row, or in the same row further left. */
  lemma EarlierPlace(w: nat, y: nat, x: nat, i: nat)
    requires x < w && i < y * w + x
    ensures i / w < y || (i / w == y && i % w < x)
  {
    Division(i, w);
    if y < i / w {
      MulMonotone(y + 1, i / w, w);
      NextRow(y, w);
    }
  }

  /** Every block has a pixel in the image. */
  lemma BlockNotEmpty(blk: seq<nat>, w: nat, h: nat, k: nat)
    requires IsBlockMap(blk, w, h) && k < Blocks(w, h)
    ensures k in blk
  {
    BlockPlace(w, h, k);
    PixelOfBlock(blk, w, h, k, 2 * (k / BlocksPerRow(w)), 2 * (k % BlocksPerRow(w)));
  }

  lemma BlockPlace(w: nat, h: nat, k: nat)
    requires 0 < w && k < Blocks(w, h)
    ensures 2 * (k / BlocksPerRow(w)) < h && 2 * (k % BlocksPerRow(w)) < w
  {
    Division(k, BlocksPerRow(w));
    RowInImage(k, BlocksPerRow(w), BlocksPerRow(h));
  }

  lemma PixelOfBlock(blk: seq<nat>, w: nat, h: nat, k: nat, y: nat, x: nat)
    requires IsBlockMap(blk, w, h) && y < h && x < w
    requires k / BlocksPerRow(w) == y / 2 && k % BlocksPerRow(w) == x / 2
    ensures k in blk
  {
    var n := y * w + x;
    PixelInImage(w, h, y, x);
    DivisionUnique(n, w, y, x);
    BlockOfIs(n, w, k);
    assert blk[n] == k;
  }

  // ---- The conversion ----

  /** Where WriteYuv puts the chroma of the pixel at row y, column x. */
  function ChromaAt(w: nat, pUV: nat, y: nat, x: nat): nat {
    pUV + 2 * (y / 2 * BlocksPerRow(w) + x / 2)
  }

  /** A chroma byte after a term was added to it, or to zero if the pixel is the first of its block; the
      addition wraps at 256. */
  predicate AddedByte(before: uint8, after: uint8, term: int, first: bool) {
    after == (term + (if first then 0 else before)) % 0x100
  }

  /** Stores one pixel: out is the whole buffer, pY the cursor of its luma plane, pUV the start of its
      chroma plane. Additions to a chroma byte wrap at 256. */
  method WriteYuv(x: nat, y: nat, w: nat, c: Rgb, out: array<uint8>, pY: nat, pUV: nat)
    requires pY < pUV && ChromaAt(w, pUV, y, x) + 1 < out.Length
    modifies out
    ensures var o := ChromaAt(w, pUV, y, x); var first := y % 2 == 0 && x % 2 == 0;
      && out[pY] == Luma(c)
      && AddedByte(old(out[o]), out[o], ChromaTerm(c, false), first)
      && AddedByte(old(out[o + 1]), out[o + 1], ChromaTerm(c, true), first)
      && forall i :: 0 <= i < out.Length && i != pY && i != o && i != o + 1 ==> out[i] == old(out[i])
  {
    var blocksPerRow := (w + 1) / 2;
    var offset := 2 * (y / 2 * blocksPerRow + x / 2);
    assert pUV + offset == ChromaAt(w, pUV, y, x);
    StoreAt(c, out, pY, pUV + offset, x % 2 == 0 && y % 2 == 0);
  }

  /** Stores the luma at pY, and the chroma at v and behind it. */
  method StoreAt(c: Rgb, out: array<uint8>, pY: nat, v: nat, first: bool)
    requires pY < v && v + 1 < out.Length
    modifies out
    ensures out[pY] == Luma(c)
    ensures AddedByte(old(out[v]), out[v], ChromaTerm(c, false), first)
    ensures AddedByte(old(out[v + 1]), out[v + 1], ChromaTerm(c, true), first)
    ensures forall i :: 0 <= i < out.Length && i != pY && i != v && i != v + 1 ==> out[i] == old(out[i])
  {
    TermRanges(c, false);
    out[pY] := Luma(c);
    AddChroma(c, out, v, first);
  }

  /** Adds a pixel's terms to the V byte at v and the U byte behind it, which the first pixel of a block clears. */
  method AddChroma(c: Rgb, out: array<uint8>, v: nat, first: bool)
    requires v + 1 < out.Length
    modifies out
    ensures AddedByte(old(out[v]), out[v], ChromaTerm(c, false), first)
    ensures AddedByte(old(out[v + 1]), out[v + 1], ChromaTerm(c, true), first)
    ensures forall i :: 0 <= i < out.Length && i != v && i != v + 1 ==> out[i] == old(out[i])
  {
    if first {
      out[v], out[v + 1] := 0, 0;
    }
    out[v] := (out[v] + ChromaTerm(c, false)) % 0x100;
    out[v + 1] := (out[v + 1] + ChromaTerm(c, true)) % 0x100;
  }

  /** What the pixel at row y, column x needs to know: its place among the blocks is the one WriteYuv
      computes, it is the first of its block exactly at an even row and column, and its block's sums
      stay within a byte. */
  ghost predicate PixelFacts(img: seq<Rgb>, blk: seq<nat>, w: nat, blocks: nat, y: nat, x: nat) {
    var n := y * w + x;
    && n < |img| == |blk| && blk[n] < blocks
    && ChromaAt(w, |img|, y, x) == |img| + 2 * blk[n]
    && (blk[n] in blk[..n] <==> !(y % 2 == 0 && x % 2 == 0))
    && SumOver(img, blk, blk[n], n + 1, false) <= 240 && SumOver(img, blk, blk[n], n + 1, true) <= 240
  }

  lemma PixelFactsHold(img: seq<Rgb>, blk: seq<nat>, w: nat, h: nat, y: nat, x: nat)
    requires IsBlockMap(blk, w, h) && |img| == |blk| && x < w && y < h
    ensures PixelFacts(img, blk, w, Blocks(w, h), y, x)
  {
    var n := y * w + x;
    PixelInImage(w, h, y, x);
    DivisionUnique(n, w, y, x);
    BlockOfInImage(n, w, h);
    FirstOfBlock(blk, w, h, y, x, n);
    SumAtMost(img, blk, w, h, blk[n], n + 1);
  }

  lemma SumAtMost(img: seq<Rgb>, blk: seq<nat>, w: nat, h: nat, k: nat, n: nat)
    requires IsBlockMap(blk, w, h) && n <= |img| == |blk|
    ensures 0 <= SumOver(img, blk, k, n, false) <= 240 && 0 <= SumOver(img, blk, k, n, true) <= 240
  {
    SumIsBlockSum(img, blk, w, h, k, n, false);
    SumIsBlockSum(img, blk, w, h, k, n, true);
    BlockSumBounds(img, w, k, n, false);
    BlockSumBounds(img, w, k, n, true);
  }

  /** One pixel of the loops below. The additions do not wrap. */
  method WritePixel(x: nat, y: nat, w: nat, ghost img: seq<Rgb>, ghost blk: seq<nat>, ghost blocks: nat,
                    c: Rgb, out: array<uint8>, pY: nat, pUV: nat)
    requires pY == y * w + x && PixelFacts(img, blk, w, blocks, y, x) && |img| == pUV && img[pY] == c
    requires Written(out[..], img, blk, blocks, pY)
    modifies out
    ensures Written(out[..], img, blk, blocks, pY + 1)
  {
    ghost var before := out[..];
    ghost var o := ChromaAt(w, pUV, y, x);
    WriteYuv(x, y, w, c, out, pY, pUV);
    StoreCounts(before, out[..], img, blk, blocks, pY, o, y % 2 == 0 && x % 2 == 0);
  }

  /** What WriteYuv leaves in the buffer is what pixel n must leave there. */
  lemma StoreCounts(before: seq<uint8>, after: seq<uint8>, img: seq<Rgb>, blk: seq<nat>, blocks: nat, n: nat, o: nat, first: bool)
    requires Written(before, img, blk, blocks, n) && n < |img| && blk[n] < blocks && o == |img| + 2 * blk[n]
    requires first <==> blk[n] !in blk[..n]
    requires SumOver(img, blk, blk[n], n + 1, false) <= 240 && SumOver(img, blk, blk[n], n + 1, true) <= 240
    requires |after| == |before| && after[n] == Luma(img[n])
    requires AddedByte(before[o], after[o], ChromaTerm(img[n], false), first)
    requires AddedByte(before[o + 1], after[o + 1], ChromaTerm(img[n], true), first)
    requires forall i :: 0 <= i < |after| && i != n && i != o && i != o + 1 ==> after[i] == before[i]
    ensures Written(after, img, blk, blocks, n + 1)
  {
    SmallSumsDoNotWrap(before, img, blk, blocks, n);
    AddedExactly(before[o], after[o], ChromaTerm(img[n], false), first);
    AddedExactly(before[o + 1], after[o + 1], ChromaTerm(img[n], true), first);
    WrittenStep(before, after, img, blk, blocks, n);
  }

  lemma AddedExactly(before: uint8, after: uint8, term: int, first: bool)
    requires AddedByte(before, after, term, first) && 0 <= term < 0x100 && (first || term + before < 0x100)
    ensures after == term + (if first then 0 else before)
  {
    SmallByte(after, term + (if first then 0 else before));
  }

  lemma SmallByte(b: uint8, v: int)
    requires 0 <= v < 0x100 && b == v % 0x100
    ensures b == v
  {
  }

  /** The additions to the two bytes of pixel n's block stay below 256. */
  lemma NothingWraps(before: seq<uint8>, img: seq<Rgb>, blk: seq<nat>, w: nat, h: nat, n: nat)
    requires IsBlockMap(blk, w, h) && Written(before, img, blk, Blocks(w, h), n) && n < |img|
    ensures blk[n] < Blocks(w, h)
    ensures 0 <= ChromaTerm(img[n], false) < 0x100 && 0 <= ChromaTerm(img[n], true) < 0x100
    ensures blk[n] in blk[..n] ==> ChromaTerm(img[n], false) + before[|img| + 2 * blk[n]] < 0x100
    ensures blk[n] in blk[..n] ==> ChromaTerm(img[n], true) + before[|img| + 2 * blk[n] + 1] < 0x100
  {
    BlockOfInImage(n, w, h);
    SumAtMost(img, blk, w, h, blk[n], n + 1);
    SmallSumsDoNotWrap(before, img, blk, Blocks(w, h), n);
  }

  lemma SmallSumsDoNotWrap(before: seq<uint8>, img: seq<Rgb>, blk: seq<nat>, blocks: nat, n: nat)
    requires Written(before, img, blk, blocks, n) && n < |img| && blk[n] < blocks
    requires SumOver(img, blk, blk[n], n + 1, false) <= 240 && SumOver(img, blk, blk[n], n + 1, true) <= 240
    ensures 0 <= ChromaTerm(img[n], false) < 0x100 && 0 <= ChromaTerm(img[n], true) < 0x100
    ensures blk[n] in blk[..n] ==> ChromaTerm(img[n], false) + before[|img| + 2 * blk[n]] < 0x100
    ensures blk[n] in blk[..n] ==> ChromaTerm(img[n], true) + before[|img| + 2 * blk[n] + 1] < 0x100
  {
    TermRanges(img[n], false);
    TermRanges(img[n], true);
  }

  /** The converter's account at the start, with blk the block of every pixel. */
  lemma Begin(out: seq<uint8>, img: seq<Rgb>, w: nat, h: nat) returns (blk: seq<nat>)
    requires 0 < w && |img| == w * h && |out| == YuvSize(w, h)
    ensures IsBlockMap(blk, w, h) && Written(out, img, blk, Blocks(w, h), 0)
  {
    blk := seq(w * h, n requires 0 <= n < w * h => BlockOf(n, w));
  }

  /** Everything is written after the last pixel. */
  lemma WrittenAll(out: seq<uint8>, img: seq<Rgb>, blk: seq<nat>, w: nat, h: nat)
    requires IsBlockMap(blk, w, h) && |img| == |blk| && Written(out, img, blk, Blocks(w, h), |img|)
    ensures IsYuv(out, img, w, h)
  {
    forall i | 0 <= i < |out|
      ensures out[i] == YuvByte(img, w, h, i)
    {
      if |img| <= i {
        ChromaWritten(out, img, blk, w, h, (i - |img|) / 2);
      }
    }
  }

  lemma ChromaWritten(out: seq<uint8>, img: seq<Rgb>, blk: seq<nat>, w: nat, h: nat, k: nat)
    requires IsBlockMap(blk, w, h) && |img| == |blk| && Written(out, img, blk, Blocks(w, h), |img|) && k < Blocks(w, h)
    ensures out[|img| + 2 * k] == BlockSum(img, w, k, |img|, false)
    ensures out[|img| + 2 * k + 1] == BlockSum(img, w, k, |img|, true)
  {
    assert blk[..|img|] == blk;
    BlockNotEmpty(blk, w, h, k);
    SumIsBlockSum(img, blk, w, h, k, |img|, false);
    SumIsBlockSum(img, blk, w, h, k, |img|, true);
  }

  ghost function FromArgbImage(input: seq<uint32>): (img: seq<Rgb>)
    ensures |img| == |input| && forall i :: 0 <= i < |input| ==> img[i] == FromArgb(input[i])
  {
    seq(|input|, i requires 0 <= i < |input| => FromArgb(input[i]))
  }

  /** Row y of the loop below; pY is both the luma cursor and the input cursor at its start. */
  method ConvertArgbRow(input: seq<uint32>, output: array<uint8>, w: nat, ghost h: nat, y: nat, pY: nat, ghost blk: seq<nat>)
    requires y < h && pY == RowStart(y, w) && IsBlockMap(blk, w, h) && |blk| == |input|
    requires Written(output[..], FromArgbImage(input), blk, Blocks(w, h), pY)
    modifies output
    ensures Written(output[..], FromArgbImage(input), blk, Blocks(w, h), pY + w)
  {
    ghost var img, blocks := FromArgbImage(input), Blocks(w, h);
    RowStartIs(y, w);
    for x := 0 to w
      invariant Written(output[..], img, blk, blocks, pY + x)
    {
      PixelFactsHold(img, blk, w, h, y, x);
      var rgb := input[pY + x];
      WritePixel(x, y, w, img, blk, blocks, FromArgb(rgb), output, pY + x, |input|);
    }
  }

  /** All rows; blk is the block of every pixel. */
  method ConvertArgbRows(input: seq<uint32>, output: array<uint8>, w: nat, h: nat, ghost blk: seq<nat>)
    requires IsBlockMap(blk, w, h) && |blk| == |input|
    requires Written(output[..], FromArgbImage(input), blk, Blocks(w, h), 0)
    modifies output
    ensures Written(output[..], FromArgbImage(input), blk, Blocks(w, h), |input|)
  {
    var pY: nat := 0;
    for y := 0 to h
      invariant pY == RowStart(y, w) && Written(output[..], FromArgbImage(input), blk, Blocks(w, h), pY)
    {
      ConvertArgbRow(input, output, w, h, y, pY, blk);
      pY := pY + w;
    }
    RowStartIs(h, w);
  }

  method ConvertArgb8888(input: seq<uint32>, output: array<uint8>, width: nat, height: nat)
    requires |input| == width * height && output.Length == YuvSize(width, height)
    modifies output
    ensures IsYuv(output[..], FromArgbImage(input), width, height)
  {
    if width != 0 {
      ghost var blk := Begin(output[..], FromArgbImage(input), width, height);
      ConvertArgbRows(input, output, width, height, blk);
      WrittenAll(output[..], FromArgbImage(input), blk, width, height);
    }
  }

  ghost function From565Image(input: seq<uint16>): (img: seq<Rgb>)
    ensures |img| == |input| && forall i :: 0 <= i < |input| ==> img[i] == From565(input[i])
  {
    seq(|input|, i requires 0 <= i < |input| => From565(input[i]))
  }

  /** Row y of the loop below; pY is both the luma cursor and the input cursor at its start. */
  method Convert565Row(input: seq<uint16>, output: array<uint8>, w: nat, ghost h: nat, y: nat, pY: nat, ghost blk: seq<nat>)
    requires y < h && pY == RowStart(y, w) && IsBlockMap(blk, w, h) && |blk| == |input|
    requires Written(output[..], From565Image(input), blk, Blocks(w, h), pY)
    modifies output
    ensures Written(output[..], From565Image(input), blk, Blocks(w, h), pY + w)
  {
    ghost var img, blocks := From565Image(input), Blocks(w, h);
    RowStartIs(y, w);
    for x := 0 to w
      invariant Written(output[..], img, blk, blocks, pY + x)
    {
      PixelFactsHold(img, blk, w, h, y, x);
      var rgb := input[pY + x];
      WritePixel(x, y, w, img, blk, blocks, From565(rgb), output, pY + x, |input|);
    }
  }

  /** All rows; blk is the block of every pixel. */
  method Convert565Rows(input: seq<uint16>, output: array<uint8>, w: nat, h: nat, ghost blk: seq<nat>)
    requires IsBlockMap(blk, w, h) && |blk| == |input|
    requires Written(output[..], From565Image(input), blk, Blocks(w, h), 0)
    modifies output
    ensures Written(output[..], From565Image(input), blk, Blocks(w, h), |input|)
  {
    var pY: nat := 0;
    for y := 0 to h
      invariant pY == RowStart(y, w) && Written(output[..], From565Image(input), blk, Blocks(w, h), pY)
    {
      Convert565Row(input, output, w, h, y, pY, blk);
      pY := pY + w;
    }
    RowStartIs(h, w);
  }

  method ConvertRgb565(input: seq<uint16>, output: array<uint8>, width: nat, height: nat)
    requires |input| == width * height && output.Length == YuvSize(width, height)
    modifies output
    ensures IsYuv(output[..], From565Image(input), width, height)
  {
    if width != 0 {
      ghost var blk := Begin(output[..], From565Image(input), width, height);
      Convert565Rows(input, output, width, height, blk);
      WrittenAll(output[..], From565Image(input), blk, width, height);
    }
  }

  /** Where the block's pixel at row y, column x lies in the image, its term. */
  function TermOf(img: seq<Rgb>, w: nat, h: nat, y: nat, x: nat, u: bool): int
    requires |img| == w * h
  {
    if y < h && x < w then (PixelInImage(w, h, y, x); ChromaTerm(img[y * w + x], u)) else 0
  }

  /** The first plane spelled out: the luma of row y, column x is at its place. */
  lemma LumaSpelled(out: seq<uint8>, img: seq<Rgb>, w: nat, h: nat, y: nat, x: nat)
    requires IsYuv(out, img, w, h) && y < h && x < w
    ensures |out| == w * h + 2 * ((w + 1) / 2 * ((h + 1) / 2))
    ensures y * w + x < w * h && out[y * w + x] == Luma(img[y * w + x])
  {
    PixelInImage(w, h, y, x);
    assert out[y * w + x] == YuvByte(img, w, h, y * w + x);
  }

  /** The second plane spelled out: row by row of blocks, rounded up, each block has its V and then its U, the sums of
      the terms of its up to four pixels. */
  lemma ChromaSpelled(out: seq<uint8>, img: seq<Rgb>, w: nat, h: nat, r: nat, c: nat, u: bool)
    requires IsYuv(out, img, w, h) && 2 * r < h && 2 * c < w
    ensures var i := w * h + 2 * (r * ((w + 1) / 2) + c) + (if u then 1 else 0);
      && i < |out|
      && out[i] == TermOf(img, w, h, 2 * r, 2 * c, u) + TermOf(img, w, h, 2 * r, 2 * c + 1, u)
                 + TermOf(img, w, h, 2 * r + 1, 2 * c, u) + TermOf(img, w, h, 2 * r + 1, 2 * c + 1, u)
  {
    BlockIndex(w, h, r, c);
    ByteOfBlock(out, img, w, h, w * h, r * BlocksPerRow(w) + c, u);
    SumSpelled(img, w, h, 2 * r, 2 * c, u);
  }

  lemma BlockIndex(w: nat, h: nat, r: nat, c: nat)
    requires 2 * r < h && 2 * c < w
    ensures var k := r * BlocksPerRow(w) + c;
      0 <= k < Blocks(w, h) && k / BlocksPerRow(w) == r && k % BlocksPerRow(w) == c
  {
    PixelInImage(BlocksPerRow(w), BlocksPerRow(h), r, c);
    DivisionUnique(r * BlocksPerRow(w) + c, BlocksPerRow(w), r, c);
  }

  lemma ByteOfBlock(out: seq<uint8>, img: seq<Rgb>, w: nat, h: nat, n: nat, k: nat, u: bool)
    requires IsYuv(out, img, w, h) && 0 < w && n == w * h && k < Blocks(w, h)
    ensures var i := n + 2 * k + (if u then 1 else 0); i < |out| && out[i] == BlockSum(img, w, k, n, u)
  {
    var b := if u then 1 else 0;
    assert (2 * k + b) / 2 == k && ((2 * k + b) % 2 == 1 <==> u);
    assert out[n + 2 * k + b] == YuvByte(img, w, h, n + 2 * k + b);
  }

  lemma TermSpelled(img: seq<Rgb>, w: nat, h: nat, y: nat, x: nat, u: bool)
    requires |img| == w * h
    ensures TermAt(img, w, y, x, w * h, u) == TermOf(img, w, h, y, x, u)
  {
    if x < w && y < h {
      PixelInImage(w, h, y, x);
    } else if x < w {
      MulMonotone(h, y, w);
    }
  }

  lemma SumSpelled(img: seq<Rgb>, w: nat, h: nat, y: nat, x: nat, u: bool)
    requires |img| == w * h
    ensures FourTerms(img, w, y, x, w * h, u) == TermOf(img, w, h, y, x, u) + TermOf(img, w, h, y, x + 1, u)
      + TermOf(img, w, h, y + 1, x, u) + TermOf(img, w, h, y + 1, x + 1, u)
  {
    TermSpelled(img, w, h, y, x, u);
    TermSpelled(img, w, h, y, x + 1, u);
    TermSpelled(img, w, h, y + 1, x, u);
    TermSpelled(img, w, h, y + 1, x + 1, u);
  }

  /** The result depends on the pixels only, not on what the buffer held before. */
  lemma YuvIsDetermined(a: seq<uint8>, b: seq<uint8>, img: seq<Rgb>, w: nat, h: nat)
    requires IsYuv(a, img, w, h) && IsYuv(b, img, w, h)
    ensures a == b
  {
    if w == 0 {
      assert Blocks(w, h) == 0;
    }
  }
}
