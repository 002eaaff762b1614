/**
 * Complex numbers with exact real parts. The program uses System.Numerics.Complex,
 * a pair of doubles; rounding is not modelled.
 */
module Complex {

  datatype Complex = Complex(re: real, im: real)

  const Zero := Complex(0.0, 0.0)

  function Add(u: Complex, v: Complex): Complex {
    Complex(u.re + v.re, u.im + v.im)
  }

  function Mul(u: Complex, v: Complex): Complex {
    Complex(u.re * v.re - u.im * v.im, u.re * v.im + u.im * v.re)
  }

  /** The square of the magnitude, |z|^2. Complex.Magnitude is its square root. */
  function NormSq(z: Complex): (n: real)
    ensures n >= 0.0
  {
    z.re * z.re + z.im * z.im
  }
}
