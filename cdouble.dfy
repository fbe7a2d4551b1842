/** Complex numbers as pairs of reals (complexvis/cdouble.c). Every `double`
    is an abstract `real`; `exp`, `cos`, `sin`, `sqrt` and the `%.2f`
    conversion are parameters of the operations that use them. */
module CDouble {
  import opened Format

  datatype Option<T> = None | Some(value: T)

  /** A complex value: real part and imaginary part. Values are immutable, so
      every operation returns a new pair and leaves its operands as they were. */
  datatype Complex = Complex(re: real, im: real)

  /** `cdouble_cons`: the value with the given parts. */
  function Cons(re: real, im: real): (z: Complex)
    ensures z.re == re && z.im == im
  {
    Complex(re, im)
  }

  /** Building a value from the two parts of another gives that value back,
      and the parts of a built value are the ones it was built from. */
  lemma ConsRoundTrip(z: Complex, re: real, im: real)
    ensures Cons(z.re, z.im) == z
    ensures Cons(re, im).re == re && Cons(re, im).im == im
  {
  }

  function Add(x: Complex, y: Complex): Complex
  {
    Cons(x.re + y.re, x.im + y.im)
  }

  function Mul(x: Complex, y: Complex): Complex
  {
    Cons(x.re * y.re - x.im * y.im, x.re * y.im + x.im * y.re)
  }

  /** `sqrt(re*re + im*im)`, with the square root supplied by the caller. */
  function Abs(z: Complex, sqrt: real -> real): real
  {
    sqrt(z.re * z.re + z.im * z.im)
  }

  /** `e^re * (cos im + i sin im)`, with the elementary functions supplied. */
  function Exp(z: Complex, exp: real -> real, cos: real -> real, sin: real -> real): Complex
  {
    Cons(exp(z.re) * cos(z.im), exp(z.re) * sin(z.im))
  }

  const Zero := Complex(0.0, 0.0)
  const One := Complex(1.0, 0.0)

  lemma AddCommutative(x: Complex, y: Complex)
    ensures Add(x, y) == Add(y, x)
  {
  }

  lemma AddAssociative(x: Complex, y: Complex, z: Complex)
    ensures Add(Add(x, y), z) == Add(x, Add(y, z))
  {
  }

  lemma AddZero(z: Complex)
    ensures Add(z, Zero) == z && Add(Zero, z) == z
  {
  }

  lemma MulCommutative(x: Complex, y: Complex)
    ensures Mul(x, y) == Mul(y, x)
  {
  }

  lemma MulOne(z: Complex)
    ensures Mul(z, One) == z && Mul(One, z) == z
  {
  }

  /** The imaginary unit squares to -1. */
  lemma ImaginaryUnitSquared()
    ensures Mul(Complex(0.0, 1.0), Complex(0.0, 1.0)) == Complex(-1.0, 0.0)
  {
  }

  lemma MulAssociative(x: Complex, y: Complex, z: Complex)
    ensures Mul(Mul(x, y), z) == Mul(x, Mul(y, z))
  {
    var l, r := Mul(Mul(x, y), z), Mul(x, Mul(y, z));
    assert l.re == x.re * y.re * z.re - x.im * y.im * z.re - x.re * y.im * z.im - x.im * y.re * z.im;
    assert r.re == x.re * y.re * z.re - x.re * y.im * z.im - x.im * y.re * z.im - x.im * y.im * z.re;
    assert l.im == x.re * y.re * z.im - x.im * y.im * z.im + x.re * y.im * z.re + x.im * y.re * z.re;
    assert r.im == x.re * y.re * z.im + x.re * y.im * z.re + x.im * y.re * z.re - x.im * y.im * z.im;
  }

  lemma MulDistributesOverAdd(x: Complex, y: Complex, z: Complex)
    ensures Mul(x, Add(y, z)) == Add(Mul(x, y), Mul(x, z))
  {
  }

  /** Worked example: |3 + 4i| = 5 whenever the supplied square root gives sqrt(25) = 5. */
  lemma AbsThreeFour(sqrt: real -> real)
    requires sqrt(25.0) == 5.0
    ensures Abs(Complex(3.0, 4.0), sqrt) == 5.0
  {
  }

  /** Worked example: e^0 = 1 whenever exp(0) = 1, cos(0) = 1 and sin(0) = 0. */
  lemma ExpZero(exp: real -> real, cos: real -> real, sin: real -> real)
    requires exp(0.0) == 1.0 && cos(0.0) == 1.0 && sin(0.0) == 0.0
    ensures Exp(Zero, exp, cos, sin) == One
  {
  }

  /** The seven output templates of `cdouble_str`, named after their format strings. */
  datatype Template =
    | Fixed       // "%.2f"          of re
    | UnitImag    // "i"
    | Imag        // "%.2fi"         of im
    | MinusUnit   // "%.2f - i"      of re
    | Minus       // "%.2f - %.2fi"  of re, -im
    | PlusUnit    // "%.2f + i"      of re
    | Plus        // "%.2f + %.2fi"  of re, im

  /** When each template applies, stated as a condition on its own rather than
      as a position in an ordered chain of tests. */
  predicate Applies(t: Template, z: Complex)
  {
    match t
    case Fixed => z.im == 0.0
    case UnitImag => z.re == 0.0 && z.im == 1.0
    case Imag => z.re == 0.0 && z.im != 0.0 && z.im != 1.0
    case MinusUnit => z.re != 0.0 && z.im == -1.0
    case Minus => z.re != 0.0 && z.im < 0.0 && z.im != -1.0
    case PlusUnit => z.re != 0.0 && z.im == 1.0
    case Plus => z.re != 0.0 && z.im > 0.0 && z.im != 1.0
  }

  /** The if-chain of `cdouble_str`: the first test that holds picks the template. */
  function Choose(z: Complex): (t: Template)
    ensures Applies(t, z)
  {
    if z.im == 0.0 then Fixed
    else if z.re == 0.0 then (if z.im == 1.0 then UnitImag else Imag)
    else if z.im == -1.0 then MinusUnit
    else if z.im < 0.0 then Minus
    else if z.im == 1.0 then PlusUnit
    else Plus
  }

  /** The untruncated text that template `t` produces for `z`. */
  /** The seven `snprintf` templates of `cdouble_str`, before the cut-off.
      All but the two pure-imaginary ones open with the formatted real part,
      and all but the real-axis one close with the letter i. */
  function Render(t: Template, z: Complex, fmt2: real -> string): (r: string)
    ensures t != UnitImag && t != Imag ==> fmt2(z.re) <= r
    ensures t != Fixed ==> |r| > 0 && r[|r| - 1] == 'i'
  {
    match t
    case Fixed => fmt2(z.re)
    case UnitImag => "i"
    case Imag => fmt2(z.im) + "i"
    case MinusUnit => fmt2(z.re) + " - i"
    case Minus => fmt2(z.re) + " - " + fmt2(-z.im) + "i"
    case PlusUnit => fmt2(z.re) + " + i"
    case Plus => fmt2(z.re) + " + " + fmt2(z.im) + "i"
  }

  /** The buffer is 64 bytes and every `snprintf` into it is given size 63. */
  const StrBufferSize := 64
  const StrLimit := 63

  /** `cdouble_str`: `None` when the buffer cannot be allocated, otherwise the
      chosen template, cut down to what `snprintf` keeps. `fmt2` stands for the
      `%.2f` conversion. */
  function Str(z: Complex, fmt2: real -> string, mallocOk: bool): (r: Option<string>)
    ensures r.None? <==> !mallocOk
    ensures r.Some? ==> |r.value| <= StrLimit - 1 < StrBufferSize
  {
    if !mallocOk then None
    else Some(Snprintf(StrLimit, Render(Choose(z), z, fmt2)))
  }

  /** Every value meets the condition of exactly one template, and the
      if-chain picks that one: both directions of the equivalence. */
  lemma ChooseIsTheApplyingTemplate(z: Complex, t: Template)
    ensures Choose(z) == t <==> Applies(t, z)
  {
  }

  lemma TemplatesExclusive(z: Complex, t1: Template, t2: Template)
    requires Applies(t1, z) && Applies(t2, z)
    ensures t1 == t2
  {
  }

  lemma TemplatesExhaustive(z: Complex)
    ensures exists t :: Applies(t, z)
  {
    assert Applies(Choose(z), z);
  }

  lemma StrAllocationFailure(z: Complex, fmt2: real -> string)
    ensures Str(z, fmt2, false) == None
  {
  }

  /** On the real axis the text is the real part alone, including for 0. */
  lemma StrRealAxis(z: Complex, fmt2: real -> string)
    requires z.im == 0.0
    ensures Str(z, fmt2, true) == Some(Snprintf(StrLimit, fmt2(z.re)))
  {
  }

  /** On the imaginary axis: "i" for exactly i, otherwise the imaginary part
      followed by "i" (so -i prints as the formatted -1 followed by "i"). */
  lemma StrImaginaryAxis(z: Complex, fmt2: real -> string)
    requires z.re == 0.0 && z.im != 0.0
    ensures z.im == 1.0 ==> Str(z, fmt2, true) == Some("i")
    ensures z.im != 1.0 ==> Str(z, fmt2, true) == Some(Snprintf(StrLimit, fmt2(z.im) + "i"))
  {
  }

  /** Below the real axis the sign is printed as " - " and the imaginary
      magnitude, which is positive, is formatted. */
  lemma StrLowerHalfPlane(z: Complex, fmt2: real -> string)
    requires z.re != 0.0 && z.im < 0.0
    ensures z.im == -1.0 ==> Str(z, fmt2, true) == Some(Snprintf(StrLimit, fmt2(z.re) + " - i"))
    ensures z.im != -1.0 ==>
      -z.im > 0.0 && Str(z, fmt2, true) == Some(Snprintf(StrLimit, fmt2(z.re) + " - " + fmt2(-z.im) + "i"))
  {
  }

  lemma StrUpperHalfPlane(z: Complex, fmt2: real -> string)
    requires z.re != 0.0 && z.im > 0.0
    ensures z.im == 1.0 ==> Str(z, fmt2, true) == Some(Snprintf(StrLimit, fmt2(z.re) + " + i"))
    ensures z.im != 1.0 ==> Str(z, fmt2, true) == Some(Snprintf(StrLimit, fmt2(z.re) + " + " + fmt2(z.im) + "i"))
  {
  }

  /** The table of expected outputs, for any `%.2f` that renders 3, 2.5 and
      -1 as "3.00", "2.50" and "-1.00". */
  lemma StrExamples(fmt2: real -> string)
    requires fmt2(3.0) == "3.00" && fmt2(2.5) == "2.50" && fmt2(-1.0) == "-1.00"
    ensures Str(Complex(3.0, 0.0), fmt2, true) == Some("3.00")
    ensures Str(Complex(0.0, 1.0), fmt2, true) == Some("i")
    ensures Str(Complex(0.0, 2.5), fmt2, true) == Some("2.50i")
    ensures Str(Complex(0.0, -1.0), fmt2, true) == Some("-1.00i")
    ensures Str(Complex(3.0, -1.0), fmt2, true) == Some("3.00 - i")
    ensures Str(Complex(3.0, -2.5), fmt2, true) == Some("3.00 - 2.50i")
    ensures Str(Complex(3.0, 1.0), fmt2, true) == Some("3.00 + i")
    ensures Str(Complex(3.0, 2.5), fmt2, true) == Some("3.00 + 2.50i")
  {
    assert fmt2(2.5) + "i" == "2.50i";
    assert fmt2(-1.0) + "i" == "-1.00i";
    assert fmt2(3.0) + " - i" == "3.00 - i";
    assert fmt2(3.0) + " - " + fmt2(2.5) + "i" == "3.00 - 2.50i";
    assert fmt2(3.0) + " + i" == "3.00 + i";
    assert fmt2(3.0) + " + " + fmt2(2.5) + "i" == "3.00 + 2.50i";
  }
}
