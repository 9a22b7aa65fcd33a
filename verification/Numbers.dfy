/** Floating-point numbers: a real, or one of the values that are not finite. */
module Numbers {
  datatype Number = Finite(r: real) | NaN | PosInf | NegInf

  function Abs(x: real): (r: real)
    ensures r >= 0.0 && (r == x || r == -x)
  {
    if x < 0.0 then -x else x
  }
}
