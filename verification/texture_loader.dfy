/**
 * CubicatTextureLoader (cubicat-port/texture_loader.cpp): how an atlas page
 * gets its texture. `load` dispatches on the resource location and the path
 * extension; `loadPNG` checks the PNG header, chooses the pixel size, lays
 * the decoded rows out in one buffer and converts them to RGB565 words (a
 * new buffer) or RGBA8888 words (in place, stored little-endian as on the
 * ESP32).
 *
 * libpng and the file system are not modelled: the outcome of opening and
 * decoding the file is a `PngSource` parameter, and the bytes png_read_image
 * leaves in the image buffer are given.
 */
module TextureLoader {
  import opened Wrappers

  // ---------------------------------------------------------------------
  // Pixel packing
  // ---------------------------------------------------------------------

  /** One RGB565 word: the top 5, 6 and 5 bits of r, g and b at bits 11-15, 5-10 and 0-4. */
  function Pack565(r: bv8, g: bv8, b: bv8): bv16 {
    ((r >> 3) as bv16 << 11) | ((g >> 2) as bv16 << 5) | (b >> 3) as bv16
  }

  /** Each field of the word gives back its channel truncated to the field's width. */
  lemma Unpack565(r: bv8, g: bv8, b: bv8)
    ensures (Pack565(r, g, b) >> 11) as bv8 == r >> 3
    ensures ((Pack565(r, g, b) >> 5) & 0x3F) as bv8 == g >> 2
    ensures (Pack565(r, g, b) & 0x1F) as bv8 == b >> 3
  {
  }

  /** One RGBA8888 word: r, g, b, a from the most significant byte down. */
  function PackRgba(r: bv8, g: bv8, b: bv8, a: bv8): bv32 {
    (r as bv32 << 24) | (g as bv32 << 16) | (b as bv32 << 8) | a as bv32
  }

  /** The packing is lossless: shifting and masking gives every channel back. */
  lemma UnpackRgba(r: bv8, g: bv8, b: bv8, a: bv8)
    ensures (PackRgba(r, g, b, a) >> 24) as bv8 == r
    ensures ((PackRgba(r, g, b, a) >> 16) & 0xFF) as bv8 == g
    ensures ((PackRgba(r, g, b, a) >> 8) & 0xFF) as bv8 == b
    ensures (PackRgba(r, g, b, a) & 0xFF) as bv8 == a
  {
  }

  /** Byte j (0 = least significant) of a word: what a little-endian store puts at address + j. */
  function ByteOf(w: bv32, j: nat): bv8
    requires j < 4
  {
    if j == 0 then (w & 0xFF) as bv8
    else if j == 1 then ((w >> 8) & 0xFF) as bv8
    else if j == 2 then ((w >> 16) & 0xFF) as bv8
    else (w >> 24) as bv8
  }

  /** The word a little-endian load reads from four bytes. */
  function LoadLe(b0: bv8, b1: bv8, b2: bv8, b3: bv8): bv32 {
    (b3 as bv32 << 24) | (b2 as bv32 << 16) | (b1 as bv32 << 8) | b0 as bv32
  }

  /** Storing a packed word little-endian puts a, b, g, r at increasing addresses. */
  lemma StoredRgbaBytes(r: bv8, g: bv8, b: bv8, a: bv8)
    ensures ByteOf(PackRgba(r, g, b, a), 0) == a
    ensures ByteOf(PackRgba(r, g, b, a), 1) == b
    ensures ByteOf(PackRgba(r, g, b, a), 2) == g
    ensures ByteOf(PackRgba(r, g, b, a), 3) == r
  {
  }

  // ---------------------------------------------------------------------
  // Pixel layout
  // ---------------------------------------------------------------------

  /** PNG colour types as libpng reports them. */
  datatype ColorType = Gray | Rgb | Palette | GrayAlpha | RgbAlpha

  /** The header checks' outcome when they stop the program (assert(false)). */
  datatype Abort = PathTooShort | BitDepthNot8 | PaletteUnsupported | GrayUnsupported

  /** Bytes per pixel in the decode buffer, bits per pixel of the texture, and whether it has alpha. */
  datatype PixelLayout = PixelLayout(bytesPerPixel: nat, bitsPerPixel: nat, hasAlpha: bool)

  /**
   * The header checks, in the source's order (bit depth, then palette, then
   * gray), and the pixel layout for an accepted header: RGB decodes 3 bytes
   * per pixel into a 16-bit texture without alpha; every other accepted type
   * decodes 4 bytes per pixel into a 32-bit texture with alpha.
   */
  function CheckHeader(colorType: ColorType, bitDepth: nat): (r: Result<PixelLayout, Abort>)
    ensures r.Success? <==> bitDepth == 8 && colorType != Palette && colorType != Gray
    ensures bitDepth != 8 ==> r == Failure(BitDepthNot8)
    ensures bitDepth == 8 && colorType == Palette ==> r == Failure(PaletteUnsupported)
    ensures bitDepth == 8 && colorType == Gray ==> r == Failure(GrayUnsupported)
    ensures r.Success? ==> (r.value.hasAlpha <==> colorType != Rgb)
    ensures r.Success? && colorType == Rgb ==> r.value.bytesPerPixel == 3 && r.value.bitsPerPixel == 16
    ensures r.Success? && colorType != Rgb ==> r.value.bytesPerPixel == 4 && r.value.bitsPerPixel == 32
  {
    if bitDepth != 8 then Failure(BitDepthNot8)
    else if colorType == Palette then Failure(PaletteUnsupported)
    else if colorType == Gray then Failure(GrayUnsupported)
    else
      var noAlpha := colorType == Rgb;
      Success(PixelLayout(if noAlpha then 3 else 4, if noAlpha then 16 else 32, !noAlpha))
  }

  lemma MulMono(a: nat, b: nat, c: nat)
    requires a <= b
    ensures a * c <= b * c
  {
  }

  /** Pixel (x, y) of a width x height image with bpp bytes per pixel lies inside the buffer. */
  lemma PixelOffset(y: nat, x: nat, width: nat, height: nat, bpp: nat)
    requires y < height && x < width
    ensures y * width * bpp + x * bpp == (y * width + x) * bpp
    ensures y * width + x < width * height
    ensures (y * width + x + 1) * bpp <= width * height * bpp
  {
    assert y * width + x + 1 <= (y + 1) * width;
    MulMono(y + 1, height, width);
    MulMono(y * width + x + 1, width * height, bpp);
  }

  /** The address of pixel x of row y is bpp times its pixel index. */
  lemma PixelAddress(rowStart: nat, y: nat, x: nat, width: nat, bpp: nat)
    requires rowStart == y * width * bpp
    ensures rowStart + x * bpp == bpp * (y * width + x)
  {
  }

  /** Row y ends where row y + 1 starts, and the last row ends at the end of the buffer. */
  lemma RowEnd(y: nat, width: nat, height: nat, bpp: nat)
    requires y < height
    ensures y * width * bpp + width * bpp == (y + 1) * width * bpp
    ensures (y + 1) * width * bpp <= width * height * bpp
  {
    MulMono(y + 1, height, width);
    MulMono((y + 1) * width, height * width, bpp);
  }

  /**
   * The rowPointers array: row y starts at byte y * width * bpp, so the
   * first row starts at the buffer's start, each row starts where the
   * previous one ends, and every row lies inside the buffer of
   * width * height * bpp bytes, the last one ending exactly at its end.
   */
  method RowPointers(width: nat, height: nat, bpp: nat) returns (rows: array<nat>)
    ensures fresh(rows) && rows.Length == height
    ensures forall y :: 0 <= y < height ==> rows[y] == y * width * bpp
    ensures height > 0 ==> rows[0] == 0
    ensures forall y :: 0 < y < height ==> rows[y] == rows[y - 1] + width * bpp
    ensures forall y :: 0 <= y < height ==> rows[y] + width * bpp <= width * height * bpp
    ensures height > 0 ==> rows[height - 1] + width * bpp == width * height * bpp
  {
    rows := new nat[height];
    var y := 0;
    while y < height
      invariant 0 <= y <= height
      invariant forall k :: 0 <= k < y ==> rows[k] == k * width * bpp
    {
      rows[y] := y * width * bpp;
      y := y + 1;
    }
    forall k | 0 <= k < height
      ensures rows[k] + width * bpp <= width * height * bpp
      ensures k > 0 ==> rows[k] == rows[k - 1] + width * bpp
    {
      RowEnd(k, width, height, bpp);
      if k > 0 {
        RowEnd(k - 1, width, height, bpp);
      }
    }
    if height > 0 {
      RowEnd(height - 1, width, height, bpp);
    }
  }

  // ---------------------------------------------------------------------
  // Conversion loops
  // ---------------------------------------------------------------------

  /** The RGB565 word of 3-byte pixel k. */
  function PixelWord565(pixels: seq<bv8>, k: nat): bv16
    requires 3 * k + 2 < |pixels|
  {
    Pack565(pixels[3 * k], pixels[3 * k + 1], pixels[3 * k + 2])
  }

  /** The RGB565 buffer made from a buffer of 3-byte RGB pixels: word k packs pixel k. */
  function Rgb565(pixels: seq<bv8>): seq<bv16>
    requires |pixels| % 3 == 0
  {
    seq(|pixels| / 3, k requires 0 <= k < |pixels| / 3 => PixelWord565(pixels, k))
  }

  /**
   * The RGB565 buffer has one word per pixel, and word k depends on pixel k
   * alone: two buffers that agree on pixel k's three bytes agree on word k.
   */
  lemma Rgb565PerPixel(pixels: seq<bv8>, other: seq<bv8>, k: nat)
    requires |pixels| % 3 == 0 && |other| == |pixels| && k < |pixels| / 3
    requires pixels[3 * k] == other[3 * k] && pixels[3 * k + 1] == other[3 * k + 1] && pixels[3 * k + 2] == other[3 * k + 2]
    ensures |Rgb565(pixels)| == |pixels| / 3
    ensures Rgb565(pixels)[k] == Rgb565(other)[k]
    ensures (Rgb565(pixels)[k] >> 11) as bv8 == pixels[3 * k] >> 3
    ensures ((Rgb565(pixels)[k] >> 5) & 0x3F) as bv8 == pixels[3 * k + 1] >> 2
    ensures (Rgb565(pixels)[k] & 0x1F) as bv8 == pixels[3 * k + 2] >> 3
  {
    Unpack565(pixels[3 * k], pixels[3 * k + 1], pixels[3 * k + 2]);
  }

  /** Row y, of `width` pixels, lies inside the image and ends where row y + 1 starts. */
  lemma NextRow(y: nat, width: nat, height: nat)
    requires y < height
    ensures y * width + width == (y + 1) * width <= width * height
  {
    MulMono(y + 1, height, width);
  }

  /** Row y of the RGB loop: the columns x = 0 .. width - 1. */
  method Rgb565Row(imgData: array<bv8>, rgb565: array<bv16>, rowStart: nat, y: nat, width: nat, height: nat)
    requires y < height && imgData.Length == width * height * 3 && rgb565.Length == width * height
    requires rowStart == y * width * 3
    requires y * width + width <= width * height
    requires forall k :: 0 <= k < y * width ==> rgb565[k] == PixelWord565(imgData[..], k)
    modifies rgb565
    ensures forall k :: 0 <= k < y * width + width ==> rgb565[k] == PixelWord565(imgData[..], k)
  {
    var x := 0;
    while x < width
      invariant 0 <= x <= width
      invariant forall k :: 0 <= k < y * width + x ==> rgb565[k] == PixelWord565(imgData[..], k)
    {
      PixelOffset(y, x, width, height, 3);
      ghost var p := y * width + x;
      var pixel := rowStart + x * 3;
      PixelAddress(rowStart, y, x, width, 3);
      var r := imgData[pixel] >> 3;
      var g := imgData[pixel + 1] >> 2;
      var b := imgData[pixel + 2] >> 3;
      rgb565[y * width + x] := (r as bv16 << 11) | (g as bv16 << 5) | b as bv16;
      assert rgb565[p] == PixelWord565(imgData[..], p);
      x := x + 1;
    }
  }

  /**
   * The RGB loop: for every row y and column x, read the three bytes at
   * rows[y] + 3x and write their RGB565 word at y * width + x of a new buffer
   * of width * height words.
   */
  method ToRgb565(imgData: array<bv8>, rows: array<nat>, width: nat, height: nat) returns (rgb565: array<bv16>)
    requires imgData.Length == width * height * 3 && rows.Length == height
    requires forall y :: 0 <= y < height ==> rows[y] == y * width * 3
    ensures fresh(rgb565) && rgb565.Length == width * height
    ensures rgb565[..] == Rgb565(imgData[..])
  {
    rgb565 := new bv16[width * height];
    var y := 0;
    while y < height
      invariant 0 <= y <= height
      invariant y * width <= width * height
      invariant forall k :: 0 <= k < y * width ==> rgb565[k] == PixelWord565(imgData[..], k)
    {
      NextRow(y, width, height);
      Rgb565Row(imgData, rgb565, rows[y], y, width, height);
      y := y + 1;
    }
    assert rgb565[..] == Rgb565(imgData[..]);
  }

  /** The packed word of 4-byte pixel k. */
  function PixelWord(pixels: seq<bv8>, k: nat): bv32
    requires 4 * k + 3 < |pixels|
  {
    PackRgba(pixels[4 * k], pixels[4 * k + 1], pixels[4 * k + 2], pixels[4 * k + 3])
  }

  /** The buffer after the in-place RGBA rewrite: each pixel's four bytes hold its packed word, little-endian. */
  function Rgba8888InPlace(pixels: seq<bv8>): seq<bv8>
    requires |pixels| % 4 == 0
  {
    seq(|pixels|, i requires 0 <= i < |pixels| => ByteOf(PixelWord(pixels, i / 4), i % 4))
  }

  lemma DivMod4(k: nat, j: nat)
    requires j < 4
    ensures (4 * k + j) / 4 == k && (4 * k + j) % 4 == j
  {
  }

  /** A little-endian load of the four bytes a little-endian store wrote gives the word back. */
  lemma LoadStoreLe(w: bv32)
    ensures LoadLe(ByteOf(w, 0), ByteOf(w, 1), ByteOf(w, 2), ByteOf(w, 3)) == w
  {
  }

  /** Byte j of pixel k after the RGBA rewrite is byte j of the pixel's packed word. */
  lemma Rgba8888At(pixels: seq<bv8>, k: nat, j: nat)
    requires |pixels| % 4 == 0 && 4 * k + 3 < |pixels| && j < 4
    ensures |Rgba8888InPlace(pixels)| == |pixels|
    ensures Rgba8888InPlace(pixels)[4 * k + j] == ByteOf(PixelWord(pixels, k), j)
  {
    DivMod4(k, j);
  }

  /** The rewrite reverses the bytes of every pixel: byte j of pixel k becomes byte 3 - j of it. */
  lemma Rgba8888Reversed(pixels: seq<bv8>, k: nat, j: nat)
    requires |pixels| % 4 == 0 && 4 * k + 3 < |pixels| && j < 4
    ensures |Rgba8888InPlace(pixels)| == |pixels|
    ensures Rgba8888InPlace(pixels)[4 * k + j] == pixels[4 * k + 3 - j]
  {
    Rgba8888At(pixels, k, j);
    StoredRgbaBytes(pixels[4 * k], pixels[4 * k + 1], pixels[4 * k + 2], pixels[4 * k + 3]);
  }

  /**
   * Word k of the rewritten buffer, read back little-endian, is the packed
   * word of pixel k's original r, g, b, a.
   */
  lemma Rgba8888Word(pixels: seq<bv8>, k: nat)
    requires |pixels| % 4 == 0 && 4 * k + 3 < |pixels|
    ensures var out := Rgba8888InPlace(pixels);
            |out| == |pixels| && LoadLe(out[4 * k], out[4 * k + 1], out[4 * k + 2], out[4 * k + 3]) == PixelWord(pixels, k)
  {
    Rgba8888At(pixels, k, 0);
    Rgba8888At(pixels, k, 1);
    Rgba8888At(pixels, k, 2);
    Rgba8888At(pixels, k, 3);
    LoadStoreLe(PixelWord(pixels, k));
  }

  /**
   * Round trip through the rewritten buffer: loading word k little-endian and
   * unpacking it gives pixel k's original r, g, b, a.
   */
  lemma Rgba8888RoundTrip(pixels: seq<bv8>, k: nat)
    requires |pixels| % 4 == 0 && 4 * k + 3 < |pixels|
    ensures var out := Rgba8888InPlace(pixels);
            var w := LoadLe(out[4 * k], out[4 * k + 1], out[4 * k + 2], out[4 * k + 3]);
            && (w >> 24) as bv8 == pixels[4 * k]
            && ((w >> 16) & 0xFF) as bv8 == pixels[4 * k + 1]
            && ((w >> 8) & 0xFF) as bv8 == pixels[4 * k + 2]
            && (w & 0xFF) as bv8 == pixels[4 * k + 3]
  {
    Rgba8888Word(pixels, k);
    UnpackRgba(pixels[4 * k], pixels[4 * k + 1], pixels[4 * k + 2], pixels[4 * k + 3]);
  }

  /** The four bytes at `at` in reverse order, the rest as they were. */
  function ReversePixel(s: seq<bv8>, at: nat): (r: seq<bv8>)
    requires at + 3 < |s|
  {
    s[at := s[at + 3]][at + 1 := s[at + 2]][at + 2 := s[at + 1]][at + 3 := s[at]]
  }

  /**
   * One pixel of the RGBA loop: read r, g, b, a at `pixel` and store the
   * packed word over the same four bytes, little-endian; nothing else changes.
   */
  method StoreRgbaWord(imgData: array<bv8>, pixel: nat)
    requires pixel + 3 < imgData.Length
    modifies imgData
    ensures imgData[..] == ReversePixel(old(imgData[..]), pixel)
  {
    var r := imgData[pixel];
    var g := imgData[pixel + 1];
    var b := imgData[pixel + 2];
    var a := imgData[pixel + 3];
    var word := (r as bv32 << 24) | (g as bv32 << 16) | (b as bv32 << 8) | a as bv32;
    StoredRgbaBytes(r, g, b, a);
    imgData[pixel] := ByteOf(word, 0);
    imgData[pixel + 1] := ByteOf(word, 1);
    imgData[pixel + 2] := ByteOf(word, 2);
    imgData[pixel + 3] := ByteOf(word, 3);
    assert imgData[..] == ReversePixel(old(imgData[..]), pixel);
  }

  /** The buffer with its first p pixels' bytes reversed and the rest as they were. */
  function MirrorPrefix(s: seq<bv8>, p: nat): seq<bv8>
    requires 4 * p <= |s|
  {
    seq(|s|, i requires 0 <= i < |s| => if i < 4 * p then s[4 * (i / 4) + 3 - i % 4] else s[i])
  }

  lemma MirrorPrefixStep(s: seq<bv8>, p: nat)
    requires 4 * p + 3 < |s|
    ensures ReversePixel(MirrorPrefix(s, p), 4 * p) == MirrorPrefix(s, p + 1)
  {
    var before, after := MirrorPrefix(s, p), MirrorPrefix(s, p + 1);
    forall i | 0 <= i < |s| ensures ReversePixel(before, 4 * p)[i] == after[i] {
      if 4 * p <= i < 4 * p + 4 {
        DivMod4(p, i - 4 * p);
      }
    }
  }

  lemma MirrorPrefixAll(s: seq<bv8>)
    requires |s| % 4 == 0
    ensures MirrorPrefix(s, |s| / 4) == Rgba8888InPlace(s)
  {
    forall i | 0 <= i < |s| ensures MirrorPrefix(s, |s| / 4)[i] == Rgba8888InPlace(s)[i] {
      MirrorPrefixAt(s, i);
    }
  }

  lemma MirrorPrefixAt(s: seq<bv8>, i: nat)
    requires |s| % 4 == 0 && i < |s|
    ensures |MirrorPrefix(s, |s| / 4)| == |Rgba8888InPlace(s)| == |s|
    ensures MirrorPrefix(s, |s| / 4)[i] == Rgba8888InPlace(s)[i]
  {
    var k, j := i / 4, i % 4;
    assert i == 4 * k + j && i < 4 * (|s| / 4);
    Rgba8888Reversed(s, k, j);
  }

  /** Row y of the RGBA loop: the columns x = 0 .. width - 1. */
  method Rgba8888Row(imgData: array<bv8>, rowStart: nat, y: nat, width: nat, height: nat, ghost original: seq<bv8>)
    requires y < height && imgData.Length == width * height * 4 && |original| == imgData.Length
    requires rowStart == y * width * 4
    requires y * width + width <= width * height
    requires imgData[..] == MirrorPrefix(original, y * width)
    modifies imgData
    ensures imgData[..] == MirrorPrefix(original, y * width + width)
  {
    var x := 0;
    while x < width
      invariant 0 <= x <= width
      invariant imgData[..] == MirrorPrefix(original, y * width + x)
    {
      PixelOffset(y, x, width, height, 4);
      PixelAddress(rowStart, y, x, width, 4);
      Rgba8888Pixel(imgData, rowStart + x * 4, y * width + x, original);
      x := x + 1;
    }
  }

  /** One pixel of the RGBA loop: the pixel at byte offset 4p is mirrored. */
  method Rgba8888Pixel(imgData: array<bv8>, pixel: nat, ghost p: nat, ghost original: seq<bv8>)
    requires pixel == 4 * p && 4 * p + 3 < imgData.Length && |original| == imgData.Length
    requires imgData[..] == MirrorPrefix(original, p)
    modifies imgData
    ensures imgData[..] == MirrorPrefix(original, p + 1)
  {
    StoreRgbaWord(imgData, pixel);
    MirrorPrefixStep(original, p);
  }

  /**
   * The RGBA loop: for every row y and column x, read r, g, b, a at
   * rows[y] + 4x and store the packed word as word y * width + x of the same
   * buffer, that is at the same four bytes.
   */
  method ToRgba8888(imgData: array<bv8>, rows: array<nat>, width: nat, height: nat)
    requires imgData.Length == width * height * 4 && rows.Length == height
    requires forall y :: 0 <= y < height ==> rows[y] == y * width * 4
    requires rows as object != imgData
    modifies imgData
    ensures imgData[..] == Rgba8888InPlace(old(imgData[..]))
  {
    ghost var original := imgData[..];
    assert MirrorPrefix(original, 0) == original;
    var y := 0;
    while y < height
      invariant 0 <= y <= height
      invariant y * width <= width * height
      invariant imgData[..] == MirrorPrefix(original, y * width)
    {
      NextRow(y, width, height);
      Rgba8888Row(imgData, rows[y], y, width, height, original);
      y := y + 1;
    }
    assert y * width == width * height;
    assert |original| / 4 == width * height;
    MirrorPrefixAll(original);
  }

  // ---------------------------------------------------------------------
  // load and loadPNG
  // ---------------------------------------------------------------------

  /** Where textures are read from (ResLocation). */
  datatype ResLocation = Memory | Spiffs | SdCard

  /** An image the GetImageDataInMemory callback hands back: its pixel buffer's address and its size. */
  datatype ImageData = ImageData(address: nat, width: nat, height: nat)

  /** The pixels a decoded texture holds. */
  datatype TextureData = Rgb565Words(words: seq<bv16>) | Rgba8888Bytes(bytes: seq<bv8>)

  /** The cubicat::Texture loadPNG creates: size, pixels, bits per pixel and the alpha flag. */
  datatype Texture = Texture(width: nat, height: nat, data: TextureData, bitsPerPixel: nat, hasAlpha: bool)

  /** What a page's renderer object points at. */
  datatype RendererObject = NoRenderer | MemoryImage(address: nat) | DecodedTexture(texture: Texture)

  /** The fields of an atlas page that load writes. */
  datatype PageView = PageView(texturePath: string, renderer: RendererObject, width: nat, height: nat)

  /**
   * A PNG file as libpng presents it: the header fields loadPNG reads, and the
   * bytes png_read_image leaves in the image buffer.
   */
  datatype PngImage = PngImage(width: nat, height: nat, colorType: ColorType, bitDepth: nat, decoded: seq<bv8>)

  /** The outcome of opening the file and reading it with libpng up to the pixel data. */
  datatype PngSource =
    | OpenFailed      // the file could not be opened
    | LibpngFailure   // libpng could not allocate its structures, or reported an error
    | Png(image: PngImage)

  /**
   * For an accepted header, the decoded bytes fill the buffer of
   * width * height * bytesPerPixel bytes, and that size fits the 32-bit
   * arithmetic that computes it.
   */
  predicate BufferFits(img: PngImage) {
    var header := CheckHeader(img.colorType, img.bitDepth);
    header.Success? ==>
      var size := img.width * img.height * header.value.bytesPerPixel;
      |img.decoded| == size && size < 0x1_0000_0000
  }

  /** The branches of load. */
  datatype Route = UseMemoryImage | NoCallback | ExtensionOutOfRange | NotPng | DecodePng

  /**
   * The dispatch of load: in MEMORY mode the callback decides and the path is
   * not inspected; otherwise the last four characters of the path decide, and
   * a path shorter than four characters makes substr throw.
   */
  function RouteOf(location: ResLocation, hasCallback: bool, path: string): (r: Route)
    ensures r == DecodePng <==> location != Memory && |path| >= 4 && path[|path| - 4..] == ".png"
    ensures r == UseMemoryImage <==> location == Memory && hasCallback
    ensures r == NoCallback <==> location == Memory && !hasCallback
    ensures r == ExtensionOutOfRange <==> location != Memory && |path| < 4
  {
    if location == Memory then
      if hasCallback then UseMemoryImage else NoCallback
    else if |path| < 4 then ExtensionOutOfRange
    else if path[|path| - 4..] == ".png" then DecodePng
    else NotPng
  }

  /** An accepted image's buffer holds a whole number of pixels. */
  lemma DecodedWhole(img: PngImage, layout: PixelLayout)
    requires CheckHeader(img.colorType, img.bitDepth) == Success(layout) && BufferFits(img)
    ensures |img.decoded| == img.width * img.height * layout.bytesPerPixel
    ensures layout.hasAlpha ==> |img.decoded| % 4 == 0
    ensures !layout.hasAlpha ==> |img.decoded| % 3 == 0
  {
    var n := img.width * img.height;
    assert n * 4 == 4 * n && (4 * n) % 4 == 0;
    assert n * 3 == 3 * n && (3 * n) % 3 == 0;
  }

  /** The texture loadPNG builds from an accepted image. */
  function DecodeTexture(img: PngImage, layout: PixelLayout): (t: Texture)
    requires CheckHeader(img.colorType, img.bitDepth) == Success(layout) && BufferFits(img)
  {
    DecodedWhole(img, layout);
    var data :=
      if layout.hasAlpha then Rgba8888Bytes(Rgba8888InPlace(img.decoded))
      else Rgb565Words(Rgb565(img.decoded));
    Texture(img.width, img.height, data, layout.bitsPerPixel, layout.hasAlpha)
  }

  /** The page after loadPNG, or the assertion that stops the program. */
  function LoadPngResult(before: PageView, path: string, file: PngSource, allocOk: bool): Result<PageView, Abort>
    requires file.Png? ==> BufferFits(file.image)
  {
    match file
    case OpenFailed => Success(before)
    case LibpngFailure => Success(before)
    case Png(img) =>
      match CheckHeader(img.colorType, img.bitDepth)
      case Failure(e) => Failure(e)
      case Success(layout) =>
        if !allocOk then Success(before)
        else Success(PageView(path, DecodedTexture(DecodeTexture(img, layout)), img.width, img.height))
  }

  /** The page after load, or the failure that stops the program. */
  function LoadResult(before: PageView, location: ResLocation, callbackImage: Option<ImageData>, path: string,
                      file: PngSource, allocOk: bool): Result<PageView, Abort>
    requires file.Png? ==> BufferFits(file.image)
  {
    match RouteOf(location, callbackImage.Some?, path)
    case UseMemoryImage =>
      var img := callbackImage.value;
      Success(PageView(path, MemoryImage(img.address), img.width, img.height))
    case NoCallback => Success(before)
    case ExtensionOutOfRange => Failure(PathTooShort)
    case NotPng => Success(before)
    case DecodePng => LoadPngResult(before, path, file, allocOk)
  }

  /**
   * The page changes only in MEMORY mode with a callback, or when a ".png"
   * file is opened, has an accepted header and its buffer is allocated; the
   * program stops only for a short path outside MEMORY mode or a rejected
   * header.
   */
  lemma LoadChangesPageOnlyWhenDecoded(before: PageView, location: ResLocation, callbackImage: Option<ImageData>,
                                       path: string, file: PngSource, allocOk: bool)
    requires file.Png? ==> BufferFits(file.image)
    ensures var r := LoadResult(before, location, callbackImage, path, file, allocOk);
            && (r.Success? && r.value != before ==>
                  (location == Memory && callbackImage.Some?)
                  || (RouteOf(location, false, path) == DecodePng && file.Png? && allocOk
                      && CheckHeader(file.image.colorType, file.image.bitDepth).Success?))
            && (r.Failure? <==>
                  (location != Memory && |path| < 4)
                  || (RouteOf(location, false, path) == DecodePng && file.Png?
                      && CheckHeader(file.image.colorType, file.image.bitDepth).Failure?))
  {
  }

  /**
   * A decoded page records the path and the image size, and its texture is
   * 16-bit RGB565 without alpha exactly for RGB images, one word per pixel,
   * and 32-bit RGBA8888 with alpha otherwise, four bytes per pixel.
   */
  lemma DecodedPage(before: PageView, path: string, img: PngImage)
    requires BufferFits(img) && CheckHeader(img.colorType, img.bitDepth).Success?
    ensures var r := LoadPngResult(before, path, Png(img), true);
            && r.Success?
            && r.value.texturePath == path && r.value.width == img.width && r.value.height == img.height
            && r.value.renderer.DecodedTexture?
            && var t := r.value.renderer.texture;
               && t.width == img.width && t.height == img.height
               && (t.hasAlpha <==> img.colorType != Rgb)
               && (img.colorType == Rgb ==>
                     t.bitsPerPixel == 16 && t.data.Rgb565Words? && |t.data.words| == img.width * img.height)
               && (img.colorType != Rgb ==>
                     t.bitsPerPixel == 32 && t.data.Rgba8888Bytes? && |t.data.bytes| == img.width * img.height * 4)
  {
  }

  /** An atlas page (the fields load writes). */
  class AtlasPage {
    var texturePath: string
    var renderer: RendererObject
    var width: nat
    var height: nat

    constructor (texturePath: string)
      ensures View() == PageView(texturePath, NoRenderer, 0, 0)
    {
      this.texturePath := texturePath;
      renderer := NoRenderer;
      width := 0;
      height := 0;
    }

    function View(): PageView
      reads this
    {
      PageView(texturePath, renderer, width, height)
    }
  }

  /** CubicatTextureLoader's static configuration and its load operation. */
  class CubicatTextureLoader {
    var location: ResLocation
    var getImageInMemory: Option<string -> ImageData>

    /** The statics' initial values: MEMORY and no callback. */
    constructor ()
      ensures location == Memory && getImageInMemory.None?
    {
      location := Memory;
      getImageInMemory := None;
    }

    /** init: record the location and the callback. */
    method Init(location: ResLocation, getImageInMemory: Option<string -> ImageData>)
      modifies this
      ensures this.location == location && this.getImageInMemory == getImageInMemory
    {
      this.location := location;
      this.getImageInMemory := getImageInMemory;
    }

    /** What the callback returns for the path, or None when no callback is set. */
    function CallbackImage(path: string): Option<ImageData>
      reads this
    {
      if getImageInMemory.Some? then Some(getImageInMemory.value(path)) else None
    }

    /**
     * load: the page as LoadResult describes it, or the reason the program
     * stops (then the page is as it was).
     */
    method Load(page: AtlasPage, path: string, file: PngSource, allocOk: bool) returns (abort: Option<Abort>)
      requires file.Png? ==> BufferFits(file.image)
      modifies page
      ensures var r := LoadResult(old(page.View()), location, CallbackImage(path), path, file, allocOk);
              && (r.Success? ==> abort.None? && page.View() == r.value)
              && (r.Failure? ==> abort == Some(r.error) && page.View() == old(page.View()))
    {
      if location == Memory {
        if getImageInMemory.Some? {
          var img := getImageInMemory.value(path);
          page.renderer := MemoryImage(img.address);
          page.texturePath := path;
          page.width := img.width;
          page.height := img.height;
        }
        return None;
      }
      if |path| < 4 {
        return Some(PathTooShort);
      }
      var ext := path[|path| - 4..];
      if ext == ".png" {
        abort := LoadPng(page, path, file, allocOk);
      } else {
        abort := None;
      }
    }

    /**
     * loadPNG: check the header, allocate the buffer, lay the rows out, let
     * libpng fill them, convert the pixels and attach the texture to the page.
     */
    method LoadPng(page: AtlasPage, path: string, file: PngSource, allocOk: bool) returns (abort: Option<Abort>)
      requires file.Png? ==> BufferFits(file.image)
      modifies page
      ensures var r := LoadPngResult(old(page.View()), path, file, allocOk);
              && (r.Success? ==> abort.None? && page.View() == r.value)
              && (r.Failure? ==> abort == Some(r.error) && page.View() == old(page.View()))
    {
      if !file.Png? {
        return None;
      }
      var img := file.image;
      var header := CheckHeader(img.colorType, img.bitDepth);
      if header.Failure? {
        return Some(header.error);
      }
      var layout := header.value;
      if !allocOk {
        return None;
      }
      var size := img.width * img.height * layout.bytesPerPixel;
      var imgData := new bv8[size];
      var rows := RowPointers(img.width, img.height, layout.bytesPerPixel);
      // png_read_image writes the decoded rows into the buffer
      forall i | 0 <= i < size {
        imgData[i] := img.decoded[i];
      }
      assert imgData[..] == img.decoded;
      var data: TextureData;
      if !layout.hasAlpha {
        var rgb565 := ToRgb565(imgData, rows, img.width, img.height);
        data := Rgb565Words(rgb565[..]);
      } else {
        ToRgba8888(imgData, rows, img.width, img.height);
        data := Rgba8888Bytes(imgData[..]);
      }
      assert data == DecodeTexture(img, layout).data;
      abort := None;
      page.texturePath := path;
      page.renderer := DecodedTexture(Texture(img.width, img.height, data, layout.bitsPerPixel, layout.hasAlpha));
      page.width := img.width;
      page.height := img.height;
    }
  }
}
