/** The byte store of a canvas pixel buffer (a `Uint8ClampedArray`).

    The engine computes channel values as real numbers and assigns them to
    the output buffer; the buffer converts each assignment with the
    ToUint8Clamp operation of ECMA-262: values at or below 0 become 0,
    values at or above 255 become 255, and everything in between is rounded
    to the nearest integer, ties going to the even neighbour. */
module Store {

  /** One element of a pixel buffer. */
  type Byte = b: int | 0 <= b < 256

  /** The conversion applied when a real channel value is stored. */
  function ClampToByte(v: real): (b: Byte)
    ensures v <= 0.0 ==> b == 0
    ensures 255.0 <= v ==> b == 255
    // inside the range the stored byte is a nearest integer ...
    ensures 0.0 <= v <= 255.0 ==> -0.5 <= b as real - v <= 0.5
    // ... and an exact tie goes to the even one
    ensures 0.0 <= v <= 255.0 && (b as real - v == 0.5 || v - b as real == 0.5) ==> b % 2 == 0
  {
    if v <= 0.0 then 0
    else if 255.0 <= v then 255
    else
      var f := v.Floor;
      if f as real + 0.5 < v then f + 1
      else if v < f as real + 0.5 then f
      else if f % 2 == 1 then f + 1
      else f
  }

  /** Storing a value that already is a byte stores that byte. */
  lemma ClampKeepsBytes(b: Byte)
    ensures ClampToByte(b as real) == b
  {
  }

  /** The store never reverses the order of two values. */
  lemma ClampMonotone(u: real, v: real)
    requires u <= v
    ensures ClampToByte(u) <= ClampToByte(v)
  {
    if 0.0 < u && v < 255.0 {
      var fu, fv := u.Floor, v.Floor;
      assert fu <= fv;
      if fu < fv {
        assert ClampToByte(u) <= fu + 1 <= fv <= ClampToByte(v);
      }
    }
  }
}
