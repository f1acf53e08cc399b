/** The effects engine: one pass over every destination pixel of a fresh,
    zero-filled RGBA buffer, sampling the captured image through the warp,
    shading the sampled red byte and storing the result. */
module Engine {
  import opened Store
  import opened Effects
  import opened Warp
  import opened Colour

  /** A captured canvas image: `width` x `height` pixels stored row by row,
      four bytes (red, green, blue, alpha) per pixel. */
  datatype Image = Image(width: nat, height: nat, data: seq<Byte>)

  /** The buffer holds exactly the image's pixels. */
  predicate WellFormed(img: Image)
  {
    |img.data| == 4 * img.width * img.height
  }

  /** Offset of the red byte of pixel (x, y) in a row-major RGBA buffer of the given width. */
  function PixelIndex(width: nat, x: nat, y: nat): nat
  {
    (y * width + x) * 4
  }

  /** All four bytes of a pixel inside the image lie inside the buffer. */
  lemma PixelIndexInRange(width: nat, height: nat, x: nat, y: nat)
    requires x < width && y < height
    ensures PixelIndex(width, x, y) + 3 < 4 * width * height
  {
    assert y * width <= (height - 1) * width by {
      MultiplyMonotone(y, height - 1, width);
    }
    assert (height - 1) * width + width == height * width;
  }

  lemma MultiplyMonotone(a: nat, b: nat, m: nat)
    requires a <= b
    ensures a * m <= b * m
  {
  }

  /** Division and remainder recover quotient and remainder. */
  lemma DivModUnique(n: int, d: int, q: int, r: int)
    requires 0 < d && 0 <= r < d && n == q * d + r
    ensures n / d == q && n % d == r
  {
    var q', r' := n / d, n % d;
    assert (q - q') * d == r' - r;
    SmallMultipleIsZero(q - q', d);
  }

  lemma SmallMultipleIsZero(z: int, d: int)
    requires 0 < d && -d < z * d < d
    ensures z == 0
  {
    if 0 < z {
      MultiplyMonotone(1, z, d);
    }
  }

  /** Byte `c` of pixel (x, y) sits at offset i, and dividing i back out
      recovers x, y and c. */
  lemma PixelIndexDecomposes(width: nat, x: nat, y: nat, c: nat)
    requires x < width && c < 4
    ensures var i := PixelIndex(width, x, y) + c;
            i % 4 == c && i / 4 % width == x && i / 4 / width == y
  {
    var i := PixelIndex(width, x, y) + c;
    DivModUnique(i, 4, y * width + x, c);
    DivModUnique(y * width + x, width, y, x);
  }

  /** Every offset of the buffer belongs to one byte of one pixel. */
  lemma IndexDecomposes(width: nat, height: nat, i: nat)
    requires i < 4 * width * height
    ensures 0 < width && i / 4 / width < height
    ensures i == PixelIndex(width, i / 4 % width, i / 4 / width) + i % 4
  {
    assert 0 < width;
    var p := i / 4;
    assert i == p * 4 + i % 4;
    assert p == p / width * width + p % width;
    if height <= p / width {
      MultiplyMonotone(height, p / width, width);
      assert false;
    }
  }

  /** Byte `c` (0 red, 1 green, 2 blue, 3 alpha) that the engine leaves at
      destination pixel (x, y): 0 when the bounds guard rejects the pixel's
      source, alpha 255 otherwise, and the stored shade of the source
      pixel's red byte in the colour channels. */
  function PixelByte(img: Image, fx: Settings, sqrt: real -> real, x: nat, y: nat, c: nat): Byte
    requires WellFormed(img) && fx.contrast != ContrastPole
    requires x < img.width && y < img.height && c < 4
  {
    var s := SourceCoord(x, y, img.width, img.height, CurvatureStrength(fx.curvature), sqrt);
    if !Accepts(s, img.width, img.height) then 0
    else if c == 3 then 255
    else
      PixelIndexInRange(img.width, img.height, s.sx, s.sy);
      var red := img.data[PixelIndex(img.width, s.sx, s.sy)];
      ClampToByte(Channel(Shade(red, ContrastFactor(fx.contrast), SepiaIntensity(fx.sepia)), c))
  }

  /** The byte at offset `i` of the rendered buffer. */
  function ResultByte(img: Image, fx: Settings, sqrt: real -> real, i: nat): Byte
    requires WellFormed(img) && fx.contrast != ContrastPole
    requires i < |img.data|
  {
    IndexDecomposes(img.width, img.height, i);
    PixelByte(img, fx, sqrt, i / 4 % img.width, i / 4 / img.width, i % 4)
  }

  /** The rendered buffer, described byte by byte: the reference the
      pixel loop is proved against. */
  function Render(img: Image, fx: Settings, sqrt: real -> real): (out: seq<Byte>)
    requires WellFormed(img) && fx.contrast != ContrastPole
    ensures |out| == |img.data|
  {
    seq(|img.data|, i requires 0 <= i < |img.data| => ResultByte(img, fx, sqrt, i))
  }

  /** Byte `c` of pixel (x, y) of the rendered buffer is the one the
      reference gives for that pixel. */
  lemma ResultBytesOfPixel(img: Image, fx: Settings, sqrt: real -> real, x: nat, y: nat, c: nat)
    requires WellFormed(img) && fx.contrast != ContrastPole
    requires x < img.width && y < img.height && c < 4
    ensures PixelIndex(img.width, x, y) + c < |img.data|
    ensures ResultByte(img, fx, sqrt, PixelIndex(img.width, x, y) + c) == PixelByte(img, fx, sqrt, x, y, c)
  {
    PixelIndexInRange(img.width, img.height, x, y);
    PixelIndexDecomposes(img.width, x, y, c);
  }

  /** `out` holds the reference bytes below offset `n` and the zeros of the
      fresh buffer from `n` on. */
  ghost predicate RenderedUpTo(img: Image, fx: Settings, sqrt: real -> real, out: seq<Byte>, n: nat)
    requires WellFormed(img) && fx.contrast != ContrastPole
  {
    && |out| == |img.data|
    && forall i :: 0 <= i < |out| ==> out[i] == if i < n then ResultByte(img, fx, sqrt, i) else 0
  }

  /** The engine's pixel loop. It starts from a zero-filled buffer the size of
      the image, derives the coefficients once, and visits the destination
      pixels row by row. The captured image is a value and is not changed. */
  method ApplyEffects(img: Image, fx: Settings, sqrt: real -> real) returns (out: seq<Byte>)
    requires WellFormed(img) && fx.contrast != ContrastPole
    ensures out == Render(img, fx, sqrt)
  {
    out := seq(4 * img.width * img.height, _ => 0);
    var k := CurvatureStrength(fx.curvature);
    var intensity := SepiaIntensity(fx.sepia);
    var f := ContrastFactor(fx.contrast);
    var y := 0;
    while y < img.height
      invariant y <= img.height
      invariant RenderedUpTo(img, fx, sqrt, out, PixelIndex(img.width, 0, y))
    {
      out := VisitRow(img, fx, sqrt, k, f, intensity, y, out);
      y := y + 1;
    }
    assert PixelIndex(img.width, 0, img.height) == |out|;
  }

  /** One pass of the inner loop: the pixels of row `y`, left to right. */
  method VisitRow(img: Image, fx: Settings, sqrt: real -> real, k: real, f: real, intensity: real,
                   y: nat, out: seq<Byte>) returns (out': seq<Byte>)
    requires WellFormed(img) && fx.contrast != ContrastPole
    requires k == CurvatureStrength(fx.curvature) && f == ContrastFactor(fx.contrast)
    requires intensity == SepiaIntensity(fx.sepia)
    requires y < img.height
    requires RenderedUpTo(img, fx, sqrt, out, PixelIndex(img.width, 0, y))
    ensures RenderedUpTo(img, fx, sqrt, out', PixelIndex(img.width, 0, y + 1))
  {
    out' := out;
    var x := 0;
    while x < img.width
      invariant x <= img.width
      invariant RenderedUpTo(img, fx, sqrt, out', PixelIndex(img.width, x, y))
    {
      out' := VisitPixel(img, fx, sqrt, k, f, intensity, x, y, out');
      x := x + 1;
    }
    assert PixelIndex(img.width, img.width, y) == PixelIndex(img.width, 0, y + 1);
  }

  /** The loop body for destination pixel (x, y): find its source through
      the warp, and when the bounds guard passes, write the stored shade of
      the source's red byte and alpha 255 at the pixel's offset. */
  method VisitPixel(img: Image, fx: Settings, sqrt: real -> real, k: real, f: real, intensity: real,
                     x: nat, y: nat, out: seq<Byte>) returns (out': seq<Byte>)
    requires WellFormed(img) && fx.contrast != ContrastPole
    requires k == CurvatureStrength(fx.curvature) && f == ContrastFactor(fx.contrast)
    requires intensity == SepiaIntensity(fx.sepia)
    requires x < img.width && y < img.height
    requires RenderedUpTo(img, fx, sqrt, out, PixelIndex(img.width, x, y))
    ensures RenderedUpTo(img, fx, sqrt, out', PixelIndex(img.width, x, y) + 4)
  {
    var width, height := img.width, img.height;
    var s := SourceCoord(x, y, width, height, k, sqrt);
    var target := PixelIndex(width, x, y);
    PixelIndexInRange(width, height, x, y);
    out' := out;
    if s.At? && 0 <= s.sx < width && 0 <= s.sy < height {
      var source := PixelIndex(width, s.sx, s.sy);
      PixelIndexInRange(width, height, s.sx, s.sy);
      var colour := Shade(img.data[source], f, intensity);
      out' := out'[target := ClampToByte(colour.r)][target + 1 := ClampToByte(colour.g)]
                  [target + 2 := ClampToByte(colour.b)][target + 3 := 255];
    }
    forall i | target <= i < target + 4
      ensures out'[i] == ResultByte(img, fx, sqrt, i)
    {
      ResultBytesOfPixel(img, fx, sqrt, x, y, i - target);
    }
  }
}
