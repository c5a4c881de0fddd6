/**
 The conversion a `Uint8ClampedArray` applies to every number stored into it:
 the ToUint8Clamp abstract operation of ECMA-262 (section 7.1.12 of the 2020
 and later editions). Numbers are modelled as exact reals; NaN and the
 infinities never reach this store in the grayscale loop and are not modelled.
 */
module Uint8Clamped {

  /** A value a `Uint8ClampedArray` element can hold. */
  predicate IsByte(x: int) {
    0 <= x <= 255
  }

  /** ToUint8Clamp: clamp to 0..255, then round to nearest, ties to even. */
  function ToUint8Clamp(n: real): (v: int)
    ensures IsByte(v)
    ensures n <= 0.0 ==> v == 0
    ensures n >= 255.0 ==> v == 255
    // inside the range, v is an integer nearest to n ...
    ensures 0.0 <= n <= 255.0 ==> -0.5 <= v as real - n <= 0.5
    // ... and when two integers are equally near, it is the even one
    ensures 0.0 <= n <= 255.0 && (v as real - n == 0.5 || n - v as real == 0.5) ==> v % 2 == 0
  {
    if n <= 0.0 then 0
    else if n >= 255.0 then 255
    else
      var f := n.Floor;
      if f as real + 0.5 < n then f + 1
      else if n < f as real + 0.5 then f
      else if f % 2 == 1 then f + 1
      else f
  }
}
