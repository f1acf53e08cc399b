# Image effects engine — a Dafny model

The image editing page keeps the bitmap it loaded as an RGBA pixel buffer.
Each time a slider moves, `applyEffects` renders a fresh buffer from that
captured original. The page has three sliders: sepia, contrast and
curvature. The render derives three coefficients and then visits every
destination pixel (x, y):

1. Normalise (x, y) to the square [-1, 1) x [-1, 1).
2. Scale the point by the inverse-radial factor 1 / (1 + k r) and floor it
   back to a source pixel.
3. Skip the pixel when that source lies outside the image.
4. Otherwise read the source pixel's red byte into three working channels.
5. Remap them for contrast, tone them with the fixed sepia matrix, and blend
   by the sepia intensity.
6. Write the three channels and alpha 255.

The model follows that structure, one module per stage:

- `Store` (store.dfy): the byte type and the conversion a `Uint8ClampedArray`
  applies when a real value is stored. This is ECMA-262's ToUint8Clamp:
  clamp to [0, 255], then round to nearest with ties to even.
- `Effects` (effects.dfy): the slider settings and the three coefficients:
  curvature / 50, sepia / 100, and 259 (c + 255) / (255 (259 - c)).
- `Warp` (warp.dfy): normalisation, the warp factor, the source coordinate
  and the bounds guard.
- `Colour` (colour.dfy): red-byte replication, the contrast remap, the sepia
  matrix and the blend.
- `Engine` (engine.dfy): the row-major RGBA layout, a byte-by-byte reference
  `Render`, and `ApplyEffects`. `ApplyEffects` is the imperative nested loop
  over a zero-filled buffer, proved equal to `Render`.
- `RenderFacts` (render_facts.dfy): whole-buffer properties and the 2 x 2
  scenarios.

Arithmetic is over `real`, not IEEE doubles. `Math.sqrt` is the parameter
`sqrt: real -> real`. Lemmas that need it assume only `IsSqrt(sqrt)`: sqrt
maps 0 to 0 and is non-negative on non-negative arguments.

The model stays as close to the code as it can:

- Green and blue are read from the red byte's offset, as the code does, so
  every rendered pixel is a function of red bytes only.
- The warp denominator 1 + k r can be zero only for a negative curvature. In
  the browser that yields an infinite or NaN coordinate, which fails the
  conjunction of the bounds guard: an infinity fails one of its four tests
  and NaN fails all of them. The model makes this case
  `Sample.NonFinite`, which the guard rejects.
- The engine computes unclamped reals. They are clamped and rounded by the
  buffer they are stored into, and the model applies that conversion
  explicitly.
- The captured image is a value, so rendering cannot change it.

## Model

| member | source | states |
|---|---|---|
| Store.ClampToByte | src/pages/ui/ImageEffectsPage/ImageEffectsPage.tsx:122-127 | a stored channel is 0 at or below 0, 255 at or above 255, otherwise within 0.5 of the real value with exact ties stored as the even byte |
| Store.ClampKeepsBytes | src/pages/ui/ImageEffectsPage/ImageEffectsPage.tsx:122-127 | storing a value that already is a byte stores that byte |
| Store.ClampMonotone | src/pages/ui/ImageEffectsPage/ImageEffectsPage.tsx:122-127 | the store preserves the order of channel values |
| Effects.CurvatureStrength | src/pages/ui/ImageEffectsPage/ImageEffectsPage.tsx:84 | the warp strength is 0 exactly at curvature 0, non-negative exactly for non-negative curvature, and at most 2 over the slider range |
| Effects.SepiaIntensity | src/pages/ui/ImageEffectsPage/ImageEffectsPage.tsx:85 | the sepia weight is 0 exactly at sepia 0, 1 exactly at sepia 100, and in [0, 1] exactly over the slider range |
| Effects.ContrastFactor | src/pages/ui/ImageEffectsPage/ImageEffectsPage.tsx:86-87 | definition of the contrast coefficient 259 (c + 255) / (255 (259 - c)), off the pole; its properties are stated by Effects.ContrastFactorNeutral, Effects.ContrastFactorAboveOne and Effects.ContrastFactorIncreasing |
| Effects.ContrastFactorNeutral | src/pages/ui/ImageEffectsPage/ImageEffectsPage.tsx:86-87 | the contrast coefficient is 1 exactly when contrast is 0 |
| Effects.ContrastFactorAboveOne | src/pages/ui/ImageEffectsPage/ImageEffectsPage.tsx:86-87 | the coefficient exceeds 1 exactly for contrast strictly between 0 and the pole 259 |
| Effects.ContrastFactorIncreasing | src/pages/ui/ImageEffectsPage/ImageEffectsPage.tsx:86-87 | below the pole a higher contrast setting gives a strictly larger coefficient |
| Warp.Normalise | src/pages/ui/ImageEffectsPage/ImageEffectsPage.tsx:91-92 | a pixel coordinate normalises into [-1, 1) |
| Warp.Unnormalise | src/pages/ui/ImageEffectsPage/ImageEffectsPage.tsx:97-98 | definition of the floor formula back to the pixel grid; its properties are stated by Warp.NormaliseRoundTrip and Warp.UnnormaliseInRange |
| Warp.WarpFactor | src/pages/ui/ImageEffectsPage/ImageEffectsPage.tsx:95 | definition of the factor 1 / (1 + k r); its properties are stated by Warp.WarpFactorRange |
| Warp.SourceCoord | src/pages/ui/ImageEffectsPage/ImageEffectsPage.tsx:91-98 | definition of the source pixel a destination pixel samples (via Warp.WarpPoint), non-finite when 1 + k r is 0; its properties are stated by Warp.NoWarpSamplesItself, Warp.NonNegativeWarpStaysInside and Warp.CentreSamplesItself |
| Warp.WarpPoint | src/pages/ui/ImageEffectsPage/ImageEffectsPage.tsx:93-98 | definition of the radius, factor and floored source position for a normalised point; its properties are stated by Warp.NonNegativeWarpStaysInside |
| Warp.Accepts | src/pages/ui/ImageEffectsPage/ImageEffectsPage.tsx:100-105 | definition of the bounds guard: a finite source inside the image; its properties are stated by Warp.NonNegativeWarpStaysInside and RenderFacts.RenderPixel |
| Warp.NormaliseRoundTrip | src/pages/ui/ImageEffectsPage/ImageEffectsPage.tsx:91-98 | mapping a pixel coordinate to [-1, 1) and back with the floor formula returns the same pixel |
| Warp.UnnormaliseInRange | src/pages/ui/ImageEffectsPage/ImageEffectsPage.tsx:97-98 | every point of [-1, 1) floors to a pixel of the axis |
| Warp.WarpFactorRange | src/pages/ui/ImageEffectsPage/ImageEffectsPage.tsx:95 | with a positive denominator the factor is positive, at most 1 exactly when k r >= 0, and exactly 1 exactly when k r = 0 |
| Warp.ScaledPointInside | src/pages/ui/ImageEffectsPage/ImageEffectsPage.tsx:97-98 | a factor in (0, 1] keeps a normalised point inside [-1, 1) |
| Warp.NoWarpSamplesItself | src/pages/ui/ImageEffectsPage/ImageEffectsPage.tsx:91-98 | with warp strength 0 every destination pixel samples its own position |
| Warp.NonNegativeWarpStaysInside | src/pages/ui/ImageEffectsPage/ImageEffectsPage.tsx:91-105 | with a non-negative warp strength every source coordinate is finite and inside the image, so the bounds guard passes |
| Warp.CentreSamplesItself | src/pages/ui/ImageEffectsPage/ImageEffectsPage.tsx:91-98 | for even sides the centre pixel samples itself at every warp strength |
| Colour.Replicate | src/pages/ui/ImageEffectsPage/ImageEffectsPage.tsx:110-112 | definition: the three working channels all read the source pixel's red byte; its consequence is stated by RenderFacts.RenderReadsOnlyRed |
| Colour.Contrast | src/pages/ui/ImageEffectsPage/ImageEffectsPage.tsx:114-116 | definition of the contrast remap f (v - 128) + 128; its properties are stated by Colour.ContrastNeutral, Colour.ContrastStretches and Colour.ContrastStretchGrows |
| Colour.SepiaTone | src/pages/ui/ImageEffectsPage/ImageEffectsPage.tsx:118-120 | definition of the fixed sepia matrix; its row sums are stated by Colour.ShadeFullSepia |
| Colour.Blend | src/pages/ui/ImageEffectsPage/ImageEffectsPage.tsx:122-127 | definition of the blend base (1 - s) + toned s; its properties are stated by Colour.BlendBetween |
| Colour.Shade | src/pages/ui/ImageEffectsPage/ImageEffectsPage.tsx:110-127 | definition of the colour computed for a source red byte; its properties are stated by Colour.ShadeWithoutSepia, Colour.ShadeFullSepia and Colour.ShadeBetween |
| Colour.ContrastNeutral | src/pages/ui/ImageEffectsPage/ImageEffectsPage.tsx:114-116 | at contrast 0 the remap is the identity |
| Colour.ContrastStretches | src/pages/ui/ImageEffectsPage/ImageEffectsPage.tsx:114-116 | a channel other than 128 moves strictly away from 128 on its own side exactly when contrast lies strictly between 0 and 259 |
| Colour.ContrastStretchGrows | src/pages/ui/ImageEffectsPage/ImageEffectsPage.tsx:114-116 | below the pole raising contrast moves every channel other than 128 strictly farther from 128 |
| Colour.BlendBetween | src/pages/ui/ImageEffectsPage/ImageEffectsPage.tsx:122-127 | for a weight in [0, 1] the blend lies between its inputs, equal to the untoned one at 0 and the toned one at 1 |
| Colour.ShadeWithoutSepia | src/pages/ui/ImageEffectsPage/ImageEffectsPage.tsx:110-127 | without sepia all three channels equal the contrast-adjusted red byte |
| Colour.ShadeFullSepia | src/pages/ui/ImageEffectsPage/ImageEffectsPage.tsx:110-127 | at full sepia the colour is the sepia tone of the grey contrast-adjusted value, namely 1.351, 1.203 and 0.937 times it |
| Colour.ShadeBetween | src/pages/ui/ImageEffectsPage/ImageEffectsPage.tsx:118-127 | for sepia intensity in [0, 1] each channel lies between the contrast-adjusted value and its sepia tone |
| Engine.PixelIndex | src/pages/ui/ImageEffectsPage/ImageEffectsPage.tsx:106-107 | definition of the row-major offset (y width + x) 4; its properties are stated by Engine.PixelIndexInRange, Engine.PixelIndexDecomposes and Engine.IndexDecomposes |
| Engine.PixelByte | src/pages/ui/ImageEffectsPage/ImageEffectsPage.tsx:100-128 | definition of byte c of destination pixel (x, y): 0 when the guard fails, 255 for alpha, else the stored shade channel; its properties are stated by RenderFacts.PixelBytesOf and RenderFacts.RenderPixel |
| Engine.Render | src/pages/ui/ImageEffectsPage/ImageEffectsPage.tsx:82-130 | definition of the rendered buffer byte by byte, the same length as the image buffer; Engine.ApplyEffects is proved equal to it |
| Engine.PixelIndexInRange | src/pages/ui/ImageEffectsPage/ImageEffectsPage.tsx:106-107 | all four byte offsets of a pixel inside the image lie inside the 4 * width * height buffer |
| Engine.PixelIndexDecomposes | src/pages/ui/ImageEffectsPage/ImageEffectsPage.tsx:106 | the offset of byte c of pixel (x, y) divides back into c, x and y |
| Engine.IndexDecomposes | src/pages/ui/ImageEffectsPage/ImageEffectsPage.tsx:89-106 | every offset i of the buffer is byte i mod 4 of the in-image pixel (i / 4 mod width, i / 4 / width); uniqueness of that decomposition is Engine.PixelIndexDecomposes |
| Engine.ResultBytesOfPixel | src/pages/ui/ImageEffectsPage/ImageEffectsPage.tsx:106-128 | the rendered byte at a pixel's offset is the byte the per-pixel reference gives for that pixel |
| Engine.ApplyEffects | src/pages/ui/ImageEffectsPage/ImageEffectsPage.tsx:82-130 | the nested loop over a zero-filled buffer produces exactly the reference rendering |
| Engine.VisitRow | src/pages/ui/ImageEffectsPage/ImageEffectsPage.tsx:90-129 | one pass of the inner loop extends the reference-rendered prefix of the buffer by one full row and leaves the rest zero |
| Engine.VisitPixel | src/pages/ui/ImageEffectsPage/ImageEffectsPage.tsx:91-128 | the loop body for one pixel extends the reference-rendered prefix by that pixel's four bytes, whether or not the guard passes |
| RenderFacts.RenderPixel | src/pages/ui/ImageEffectsPage/ImageEffectsPage.tsx:100-128 | a pixel passing the guard gets the stored shade of its source's red byte and alpha 255, both offsets in range; a pixel failing it keeps four zeros |
| RenderFacts.PixelBytesOf | src/pages/ui/ImageEffectsPage/ImageEffectsPage.tsx:100-128 | the four reference bytes of a pixel are the stored shade of its source's red byte and 255 when the guard passes, with the source offset in range, and four zeros otherwise |
| RenderFacts.EachPixelAt | src/pages/ui/ImageEffectsPage/ImageEffectsPage.tsx:106-107 | in a buffer rebuilt pixel by pixel from red bytes, byte i is byte i mod 4 of the replacement for the red byte at offset i - i mod 4, the pixel's own red byte |
| RenderFacts.RenderNeutral | src/pages/ui/ImageEffectsPage/ImageEffectsPage.tsx:84-128 | with all sliders at 0 the rendering is the image with each pixel replaced by the opaque grey of its red byte |
| RenderFacts.NeutralPixelByte | src/pages/ui/ImageEffectsPage/ImageEffectsPage.tsx:84-128 | with all sliders at 0 each byte of a destination pixel is the matching byte of the opaque grey of that same pixel's red byte |
| RenderFacts.RenderGreyWithoutSepia | src/pages/ui/ImageEffectsPage/ImageEffectsPage.tsx:110-127 | with sepia 0 every pixel's red, green and blue bytes are equal |
| RenderFacts.RenderOpaque | src/pages/ui/ImageEffectsPage/ImageEffectsPage.tsx:84-128 | with non-negative curvature every pixel is written and every alpha byte is 255 |
| RenderFacts.PixelByteReadsOnlyRed | src/pages/ui/ImageEffectsPage/ImageEffectsPage.tsx:106-112 | each byte of a destination pixel is the same for two images of the same size that agree on their red bytes |
| RenderFacts.RenderReadsOnlyRed | src/pages/ui/ImageEffectsPage/ImageEffectsPage.tsx:110-112 | two images of the same size that agree on their red bytes render identically |
| RenderFacts.StoredShadeBetween | src/pages/ui/ImageEffectsPage/ImageEffectsPage.tsx:118-127 | for sepia intensity in [0, 1] each stored channel lies between the stored contrast-adjusted value and the stored sepia tone |
| RenderFacts.RenderSepiaBetween | src/pages/ui/ImageEffectsPage/ImageEffectsPage.tsx:100-127 | for sepia in [0, 100] each stored colour byte of a written pixel lies between the stored contrast-adjusted value and the stored sepia tone |
| RenderFacts.RenderFullSepia | src/pages/ui/ImageEffectsPage/ImageEffectsPage.tsx:84-128 | at sepia 100 with the other sliders at 0 each pixel becomes the opaque stored sepia tone of the grey of its red byte |
| RenderFacts.FullSepiaPixelByte | src/pages/ui/ImageEffectsPage/ImageEffectsPage.tsx:84-128 | at sepia 100 with the other sliders at 0 each byte of a destination pixel is the matching byte of the opaque stored sepia tone of that same pixel's red byte |
| RenderFacts.NeutralTwoByTwo | src/pages/ui/ImageEffectsPage/ImageEffectsPage.tsx:89-128 | every 2 x 2 image with red bytes 10, 20, 30, 40, whatever its other twelve bytes, renders at all-zero settings to opaque greys 10, 20, 30, 40 |
| RenderFacts.FullSepiaTwoByTwo | src/pages/ui/ImageEffectsPage/ImageEffectsPage.tsx:89-128 | every such image, whatever its other twelve bytes, renders at sepia 100 with the other sliders at 0 to (14, 12, 9), (27, 24, 19), (41, 36, 28), (54, 48, 37), all opaque |

## Left out

- The early returns when the canvas, its 2D context or the captured image is missing (lines 56-64). They are browser state; the model starts from a captured image.
- The temporary canvas (lines 70-80). It is created and filled but never read.
- `putImageData` (line 133), image loading, file upload, PNG download, the slider handlers and the JSX. These are browser I/O and React scheduling. The handlers also read the settings before React applies the state update, which is framework behaviour rather than engine logic.
- IEEE-754 rounding. With doubles, x / width * 2 - 1 and the floor back can differ from the exact result by one pixel. The model's identity results (`Warp.NoWarpSamplesItself`, `RenderFacts.RenderNeutral`) hold in exact arithmetic.
- `Math.sqrt` is a parameter. The model assumes only non-negativity and sqrt(0) = 0, never that it is a square root.
- Non-integer slider settings. The engine (lines 84-87) accepts any number, but the model's `Settings` holds integers, because the only caller is a `Slider` with `step={1}` (lines 209-232), which produces whole numbers.
- NaN and infinities in the store. The contrast pole 259 (infinite coefficient) is excluded by `requires contrast != ContrastPole`; the sliders cap contrast at 100. A non-finite warp coordinate is modelled as `Sample.NonFinite`.
- Separate sizes for the canvas and the captured image. The code takes width and height from the canvas and assumes the captured image has the same size. The model has one size and requires `|data| == 4 * width * height`.
- Zero-sized canvases. `createImageData` rejects a zero width or height, while the model renders them to the empty buffer.
- Determinism and no shared state between renders follow from the model being pure functions. No separate lemma states them.
