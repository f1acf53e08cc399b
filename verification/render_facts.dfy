/** Properties of the rendered buffer as a whole. */
module RenderFacts {
  import opened Store
  import opened Effects
  import opened Warp
  import opened Colour
  import opened Engine

  /** The bytes of destination pixel (x, y): a pixel whose source passes the
      bounds guard gets alpha 255 and the stored shade of the source pixel's
      red byte, where both buffer offsets are in range; any other pixel keeps
      the zeros of the fresh buffer. */
  lemma RenderPixel(img: Image, fx: Settings, sqrt: real -> real, x: nat, y: nat)
    requires WellFormed(img) && fx.contrast != ContrastPole
    requires x < img.width && y < img.height
    ensures var out := Render(img, fx, sqrt);
            var t := PixelIndex(img.width, x, y);
            var s := SourceCoord(x, y, img.width, img.height, CurvatureStrength(fx.curvature), sqrt);
            && t + 3 < |out|
            && (Accepts(s, img.width, img.height) ==>
                  && PixelIndex(img.width, s.sx, s.sy) + 3 < |img.data|
                  && var colour := Shade(img.data[PixelIndex(img.width, s.sx, s.sy)],
                                         ContrastFactor(fx.contrast), SepiaIntensity(fx.sepia));
                     out[t .. t + 4] == [ClampToByte(colour.r), ClampToByte(colour.g), ClampToByte(colour.b), 255])
            && (!Accepts(s, img.width, img.height) ==> out[t .. t + 4] == [0, 0, 0, 0])
  {
    var out := Render(img, fx, sqrt);
    var t := PixelIndex(img.width, x, y);
    ResultBytesOfPixel(img, fx, sqrt, x, y, 0);
    ResultBytesOfPixel(img, fx, sqrt, x, y, 1);
    ResultBytesOfPixel(img, fx, sqrt, x, y, 2);
    ResultBytesOfPixel(img, fx, sqrt, x, y, 3);
    assert out[t .. t + 4] == PixelBytes(img, fx, sqrt, x, y);
    PixelBytesOf(img, fx, sqrt, x, y);
  }

  /** The four bytes the reference gives for destination pixel (x, y). */
  function PixelBytes(img: Image, fx: Settings, sqrt: real -> real, x: nat, y: nat): seq<Byte>
    requires WellFormed(img) && fx.contrast != ContrastPole
    requires x < img.width && y < img.height
  {
    [PixelByte(img, fx, sqrt, x, y, 0), PixelByte(img, fx, sqrt, x, y, 1),
     PixelByte(img, fx, sqrt, x, y, 2), PixelByte(img, fx, sqrt, x, y, 3)]
  }

  lemma PixelBytesOf(img: Image, fx: Settings, sqrt: real -> real, x: nat, y: nat)
    requires WellFormed(img) && fx.contrast != ContrastPole
    requires x < img.width && y < img.height
    ensures var s := SourceCoord(x, y, img.width, img.height, CurvatureStrength(fx.curvature), sqrt);
            && (Accepts(s, img.width, img.height) ==>
                  && PixelIndex(img.width, s.sx, s.sy) + 3 < |img.data|
                  && var colour := Shade(img.data[PixelIndex(img.width, s.sx, s.sy)],
                                         ContrastFactor(fx.contrast), SepiaIntensity(fx.sepia));
                     PixelBytes(img, fx, sqrt, x, y) == [ClampToByte(colour.r), ClampToByte(colour.g), ClampToByte(colour.b), 255])
            && (!Accepts(s, img.width, img.height) ==> PixelBytes(img, fx, sqrt, x, y) == [0, 0, 0, 0])
  {
    var s := SourceCoord(x, y, img.width, img.height, CurvatureStrength(fx.curvature), sqrt);
    if Accepts(s, img.width, img.height) {
      PixelIndexInRange(img.width, img.height, s.sx, s.sy);
    }
  }

  /** An RGBA buffer rebuilt pixel by pixel: each pixel is replaced by the
      four bytes `pixel` gives for its red byte. */
  function EachPixel(data: seq<Byte>, pixel: Byte -> seq<Byte>): (out: seq<Byte>)
    requires |data| % 4 == 0
    requires forall red :: |pixel(red)| == 4
    ensures |out| == |data|
    decreases |data|
  {
    if data == [] then [] else pixel(data[0]) + EachPixel(data[4..], pixel)
  }

  /** Byte i of the rebuilt buffer is byte i mod 4 of the replacement for
      the red byte of its pixel. */
  lemma {:induction false} EachPixelAt(data: seq<Byte>, pixel: Byte -> seq<Byte>, i: nat)
    requires |data| % 4 == 0 && i < |data|
    requires forall red :: |pixel(red)| == 4
    ensures EachPixel(data, pixel)[i] == pixel(data[i - i % 4])[i % 4]
    decreases i
  {
    assert EachPixel(data, pixel) == pixel(data[0]) + EachPixel(data[4..], pixel);
    if 4 <= i {
      EachPixelAt(data[4..], pixel, i - 4);
      assert (i - 4) % 4 == i % 4;
      assert data[4..][i - 4 - (i - 4) % 4] == data[i - i % 4];
    }
  }

  /** The opaque grey of a red byte. */
  function GreyPixel(red: Byte): seq<Byte>
  {
    [red, red, red, 255]
  }

  /** The opaque, stored sepia tone of the grey of a red byte. */
  function SepiaPixel(red: Byte): seq<Byte>
  {
    var tone := SepiaTone(Replicate(red));
    [ClampToByte(tone.r), ClampToByte(tone.g), ClampToByte(tone.b), 255]
  }

  /** With all three sliders at 0 every pixel becomes opaque and its red,
      green and blue bytes all equal the red byte of the same source pixel. */
  lemma RenderNeutral(img: Image, sqrt: real -> real)
    requires WellFormed(img)
    ensures |img.data| % 4 == 0
    ensures Render(img, Settings(0, 0, 0), sqrt) == EachPixel(img.data, GreyPixel)
  {
    var fx := Settings(0, 0, 0);
    var out := Render(img, fx, sqrt);
    assert |img.data| % 4 == 0 by {
      assert |img.data| == 4 * (img.width * img.height);
    }
    forall i | 0 <= i < |out|
      ensures out[i] == EachPixel(img.data, GreyPixel)[i]
    {
      IndexDecomposes(img.width, img.height, i);
      NeutralPixelByte(img, sqrt, i / 4 % img.width, i / 4 / img.width, i % 4);
      EachPixelAt(img.data, GreyPixel, i);
    }
  }

  lemma NeutralPixelByte(img: Image, sqrt: real -> real, x: nat, y: nat, c: nat)
    requires WellFormed(img)
    requires x < img.width && y < img.height && c < 4
    ensures PixelIndex(img.width, x, y) < |img.data|
    ensures PixelByte(img, Settings(0, 0, 0), sqrt, x, y, c) == GreyPixel(img.data[PixelIndex(img.width, x, y)])[c]
  {
    PixelIndexInRange(img.width, img.height, x, y);
    assert CurvatureStrength(0) == 0.0;
    NoWarpSamplesItself(x, y, img.width, img.height, sqrt);
    var red := img.data[PixelIndex(img.width, x, y)];
    ContrastNeutral(red as real);
    ShadeWithoutSepia(red, ContrastFactor(0));
    assert Shade(red, ContrastFactor(0), SepiaIntensity(0)) == Rgb(red as real, red as real, red as real);
    ClampKeepsBytes(red);
  }

  /** Without sepia every written pixel is grey: its red, green and blue
      bytes are equal. */
  lemma RenderGreyWithoutSepia(img: Image, fx: Settings, sqrt: real -> real)
    requires WellFormed(img) && fx.contrast != ContrastPole
    requires fx.sepia == 0
    ensures var out := Render(img, fx, sqrt);
            forall i :: 0 <= i < |out| && i % 4 == 0 ==> i + 2 < |out| && out[i] == out[i + 1] == out[i + 2]
  {
    var out := Render(img, fx, sqrt);
    forall i | 0 <= i < |out| && i % 4 == 0
      ensures i + 2 < |out| && out[i] == out[i + 1] == out[i + 2]
    {
      IndexDecomposes(img.width, img.height, i);
      var x, y := i / 4 % img.width, i / 4 / img.width;
      ResultBytesOfPixel(img, fx, sqrt, x, y, 0);
      ResultBytesOfPixel(img, fx, sqrt, x, y, 1);
      ResultBytesOfPixel(img, fx, sqrt, x, y, 2);
      PixelGreyWithoutSepia(img, fx, sqrt, x, y);
    }
  }

  lemma PixelGreyWithoutSepia(img: Image, fx: Settings, sqrt: real -> real, x: nat, y: nat)
    requires WellFormed(img) && fx.contrast != ContrastPole
    requires fx.sepia == 0
    requires x < img.width && y < img.height
    ensures PixelByte(img, fx, sqrt, x, y, 0) == PixelByte(img, fx, sqrt, x, y, 1) == PixelByte(img, fx, sqrt, x, y, 2)
  {
    var s := SourceCoord(x, y, img.width, img.height, CurvatureStrength(fx.curvature), sqrt);
    if Accepts(s, img.width, img.height) {
      PixelIndexInRange(img.width, img.height, s.sx, s.sy);
      ShadeWithoutSepia(img.data[PixelIndex(img.width, s.sx, s.sy)], ContrastFactor(fx.contrast));
    }
  }

  /** With a non-negative curvature no source leaves the image, so every
      pixel is written and every alpha byte is 255. */
  lemma RenderOpaque(img: Image, fx: Settings, sqrt: real -> real)
    requires WellFormed(img) && fx.contrast != ContrastPole
    requires IsSqrt(sqrt)
    requires 0 <= fx.curvature
    ensures var out := Render(img, fx, sqrt);
            forall i :: 0 <= i < |out| && i % 4 == 3 ==> out[i] == 255
  {
    var out := Render(img, fx, sqrt);
    forall i | 0 <= i < |out| && i % 4 == 3
      ensures out[i] == 255
    {
      IndexDecomposes(img.width, img.height, i);
      var x, y := i / 4 % img.width, i / 4 / img.width;
      NonNegativeWarpStaysInside(x, y, img.width, img.height, CurvatureStrength(fx.curvature), sqrt);
    }
  }

  /** Only the red byte of a source pixel is read: two images of the same
      size that agree on their red bytes render identically. */
  lemma RenderReadsOnlyRed(a: Image, b: Image, fx: Settings, sqrt: real -> real)
    requires WellFormed(a) && WellFormed(b) && fx.contrast != ContrastPole
    requires a.width == b.width && a.height == b.height
    requires forall i :: 0 <= i < |a.data| && i % 4 == 0 ==> a.data[i] == b.data[i]
    ensures Render(a, fx, sqrt) == Render(b, fx, sqrt)
  {
    var ra, rb := Render(a, fx, sqrt), Render(b, fx, sqrt);
    forall i | 0 <= i < |ra|
      ensures ra[i] == rb[i]
    {
      ResultByteReadsOnlyRed(a, b, fx, sqrt, i);
    }
  }

  lemma ResultByteReadsOnlyRed(a: Image, b: Image, fx: Settings, sqrt: real -> real, i: nat)
    requires WellFormed(a) && WellFormed(b) && fx.contrast != ContrastPole
    requires a.width == b.width && a.height == b.height
    requires forall i :: 0 <= i < |a.data| && i % 4 == 0 ==> a.data[i] == b.data[i]
    requires i < |a.data|
    ensures ResultByte(a, fx, sqrt, i) == ResultByte(b, fx, sqrt, i)
  {
    IndexDecomposes(a.width, a.height, i);
    PixelByteReadsOnlyRed(a, b, fx, sqrt, i / 4 % a.width, i / 4 / a.width, i % 4);
  }

  lemma PixelByteReadsOnlyRed(a: Image, b: Image, fx: Settings, sqrt: real -> real, x: nat, y: nat, c: nat)
    requires WellFormed(a) && WellFormed(b) && fx.contrast != ContrastPole
    requires a.width == b.width && a.height == b.height
    requires forall i :: 0 <= i < |a.data| && i % 4 == 0 ==> a.data[i] == b.data[i]
    requires x < a.width && y < a.height && c < 4
    ensures PixelByte(a, fx, sqrt, x, y, c) == PixelByte(b, fx, sqrt, x, y, c)
  {
    var s := SourceCoord(x, y, a.width, a.height, CurvatureStrength(fx.curvature), sqrt);
    if Accepts(s, a.width, a.height) {
      PixelIndexInRange(a.width, a.height, s.sx, s.sy);
      PixelIndexDecomposes(a.width, s.sx, s.sy, 0);
    }
  }

  /** For a sepia setting in [0, 100] every stored colour byte of a written
      pixel lies between the stored contrast-adjusted value and the stored
      channel of its full sepia tone. */
  lemma RenderSepiaBetween(img: Image, fx: Settings, sqrt: real -> real, x: nat, y: nat, c: nat)
    requires WellFormed(img) && fx.contrast != ContrastPole
    requires 0 <= fx.sepia <= 100
    requires x < img.width && y < img.height && c < 3
    ensures PixelIndex(img.width, x, y) + c < |img.data|
    ensures var s := SourceCoord(x, y, img.width, img.height, CurvatureStrength(fx.curvature), sqrt);
            Accepts(s, img.width, img.height) ==>
              PixelIndex(img.width, s.sx, s.sy) < |img.data| &&
              var v := Contrast(ContrastFactor(fx.contrast), img.data[PixelIndex(img.width, s.sx, s.sy)] as real);
              var lo := ClampToByte(v);
              var hi := ClampToByte(Channel(SepiaTone(Rgb(v, v, v)), c));
              var stored := Render(img, fx, sqrt)[PixelIndex(img.width, x, y) + c];
              (lo <= hi ==> lo <= stored <= hi) && (hi <= lo ==> hi <= stored <= lo)
  {
    var s := SourceCoord(x, y, img.width, img.height, CurvatureStrength(fx.curvature), sqrt);
    ResultBytesOfPixel(img, fx, sqrt, x, y, c);
    if Accepts(s, img.width, img.height) {
      PixelIndexInRange(img.width, img.height, s.sx, s.sy);
      var red := img.data[PixelIndex(img.width, s.sx, s.sy)];
      var f, intensity := ContrastFactor(fx.contrast), SepiaIntensity(fx.sepia);
      assert Render(img, fx, sqrt)[PixelIndex(img.width, x, y) + c] == ClampToByte(Channel(Shade(red, f, intensity), c));
      StoredShadeBetween(red, f, intensity, c);
    }
  }

  lemma StoredShadeBetween(red: Byte, f: real, s: real, c: nat)
    requires 0.0 <= s <= 1.0 && c < 3
    ensures var v := Contrast(f, red as real);
            var lo := ClampToByte(v);
            var hi := ClampToByte(Channel(SepiaTone(Rgb(v, v, v)), c));
            var stored := ClampToByte(Channel(Shade(red, f, s), c));
            (lo <= hi ==> lo <= stored <= hi) && (hi <= lo ==> hi <= stored <= lo)
  {
    var v := Contrast(f, red as real);
    var toned := Channel(SepiaTone(Rgb(v, v, v)), c);
    var blended := Channel(Shade(red, f, s), c);
    ShadeBetween(red, f, s, c);
    if v <= toned {
      ClampMonotone(v, blended);
      ClampMonotone(blended, toned);
      ClampMonotone(v, toned);
    } else {
      ClampMonotone(toned, blended);
      ClampMonotone(blended, v);
      ClampMonotone(toned, v);
    }
  }

  /** With sepia at 100 and the other sliders at 0 every pixel becomes the
      opaque sepia tone of the grey of its red byte. */
  lemma RenderFullSepia(img: Image, sqrt: real -> real)
    requires WellFormed(img)
    ensures |img.data| % 4 == 0
    ensures Render(img, Settings(100, 0, 0), sqrt) == EachPixel(img.data, SepiaPixel)
  {
    var fx := Settings(100, 0, 0);
    var out := Render(img, fx, sqrt);
    assert |img.data| % 4 == 0 by {
      assert |img.data| == 4 * (img.width * img.height);
    }
    forall i | 0 <= i < |out|
      ensures out[i] == EachPixel(img.data, SepiaPixel)[i]
    {
      IndexDecomposes(img.width, img.height, i);
      FullSepiaPixelByte(img, sqrt, i / 4 % img.width, i / 4 / img.width, i % 4);
      EachPixelAt(img.data, SepiaPixel, i);
    }
  }

  lemma FullSepiaPixelByte(img: Image, sqrt: real -> real, x: nat, y: nat, c: nat)
    requires WellFormed(img)
    requires x < img.width && y < img.height && c < 4
    ensures PixelIndex(img.width, x, y) < |img.data|
    ensures PixelByte(img, Settings(100, 0, 0), sqrt, x, y, c) == SepiaPixel(img.data[PixelIndex(img.width, x, y)])[c]
  {
    PixelIndexInRange(img.width, img.height, x, y);
    NoWarpSamplesItself(x, y, img.width, img.height, sqrt);
    var red := img.data[PixelIndex(img.width, x, y)];
    ContrastNeutral(red as real);
    assert SepiaIntensity(100) == 1.0;
    ShadeFullSepia(red, ContrastFactor(0));
  }

  /** Any 2 x 2 image whose red bytes are 10, 20, 30 and 40 renders, with all
      sliders at 0, to opaque greys of those values; its other bytes play no part. */
  lemma NeutralTwoByTwo(data: seq<Byte>, sqrt: real -> real)
    requires |data| == 16
    requires data[0] == 10 && data[4] == 20 && data[8] == 30 && data[12] == 40
    ensures Render(Image(2, 2, data), Settings(0, 0, 0), sqrt)
         == [10, 10, 10, 255, 20, 20, 20, 255, 30, 30, 30, 255, 40, 40, 40, 255]
  {
    RenderNeutral(Image(2, 2, data), sqrt);
    TwoByTwoPixels(data, GreyPixel);
  }

  /** The same images at full sepia: each pixel is the stored sepia tone of
      the grey of its red byte (10 gives 13.51, 12.03 and 9.37, stored as
      14, 12 and 9). */
  lemma FullSepiaTwoByTwo(data: seq<Byte>, sqrt: real -> real)
    requires |data| == 16
    requires data[0] == 10 && data[4] == 20 && data[8] == 30 && data[12] == 40
    ensures Render(Image(2, 2, data), Settings(100, 0, 0), sqrt)
         == [14, 12, 9, 255, 27, 24, 19, 255, 41, 36, 28, 255, 54, 48, 37, 255]
  {
    RenderFullSepia(Image(2, 2, data), sqrt);
    TwoByTwoPixels(data, SepiaPixel);
    SepiaPixelOf(10, 14, 12, 9);
    SepiaPixelOf(20, 27, 24, 19);
    SepiaPixelOf(30, 41, 36, 28);
    SepiaPixelOf(40, 54, 48, 37);
  }

  /** The stored sepia tone of the grey of a red byte, for the bytes where
      each of the three channels is closer to one byte than to any other. */
  lemma SepiaPixelOf(red: Byte, r: Byte, g: Byte, b: Byte)
    requires var tone := SepiaTone(Replicate(red));
             && r as real - 0.5 < tone.r < r as real + 0.5
             && g as real - 0.5 < tone.g < g as real + 0.5
             && b as real - 0.5 < tone.b < b as real + 0.5
    ensures SepiaPixel(red) == [r, g, b, 255]
  {
    var tone := SepiaTone(Replicate(red));
    StoreNearest(tone.r, r);
    StoreNearest(tone.g, g);
    StoreNearest(tone.b, b);
  }

  /** A value strictly within half a unit of a byte is stored as that byte. */
  lemma StoreNearest(v: real, b: Byte)
    requires b as real - 0.5 < v < b as real + 0.5
    ensures ClampToByte(v) == b
  {
  }

  /** Rebuilding a four-pixel buffer concatenates the replacements of its
      four red bytes. */
  lemma TwoByTwoPixels(data: seq<Byte>, pixel: Byte -> seq<Byte>)
    requires |data| == 16
    requires forall red :: |pixel(red)| == 4
    ensures EachPixel(data, pixel) == pixel(data[0]) + pixel(data[4]) + pixel(data[8]) + pixel(data[12])
  {
    var p1, p2, p3 := data[4..], data[8..], data[12..];
    assert p3[4..] == [];
    assert EachPixel(p3, pixel) == pixel(data[12]) + EachPixel([], pixel);
    assert p2[4..] == p3 && p2[0] == data[8];
    assert EachPixel(p2, pixel) == pixel(data[8]) + EachPixel(p3, pixel);
    assert p1[4..] == p2 && p1[0] == data[4];
    assert EachPixel(p1, pixel) == pixel(data[4]) + EachPixel(p2, pixel);
    assert EachPixel(data, pixel) == pixel(data[0]) + EachPixel(p1, pixel);
  }
}
