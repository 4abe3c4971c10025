/** Complex numbers over the reals: the commutative ring in which the transform is computed.
    The program keeps the two parts in separate arrays; IEEE rounding is not modelled. */
module ComplexNumbers {

  datatype Complex = Complex(re: real, im: real)

  const ZERO := Complex(0.0, 0.0)
  const ONE := Complex(1.0, 0.0)
  const MINUS_ONE := Complex(-1.0, 0.0)

  function Add(a: Complex, b: Complex): Complex {
    Complex(a.re + b.re, a.im + b.im)
  }

  function Sub(a: Complex, b: Complex): Complex {
    Complex(a.re - b.re, a.im - b.im)
  }

  function Mul(a: Complex, b: Complex): Complex {
    Complex(a.re * b.re - a.im * b.im, a.re * b.im + a.im * b.re)
  }

  function Scale(c: real, a: Complex): Complex {
    Complex(c * a.re, c * a.im)
  }

  function Conj(a: Complex): Complex {
    Complex(a.re, -a.im)
  }

  /** The squared absolute value. */
  function Norm(a: Complex): real {
    a.re * a.re + a.im * a.im
  }

  function Pow(z: Complex, k: nat): Complex {
    if k == 0 then ONE else Mul(z, Pow(z, k - 1))
  }

  function RealPow(a: real, k: nat): real {
    if k == 0 then 1.0 else a * RealPow(a, k - 1)
  }

  lemma MulCommutes(a: Complex, b: Complex)
    ensures Mul(a, b) == Mul(b, a)
  {
  }

  lemma MulAssociates(a: Complex, b: Complex, c: Complex)
    ensures Mul(Mul(a, b), c) == Mul(a, Mul(b, c))
  {
  }

  lemma MulDistributes(a: Complex, b: Complex, c: Complex)
    ensures Mul(a, Add(b, c)) == Add(Mul(a, b), Mul(a, c))
    ensures Mul(Add(b, c), a) == Add(Mul(b, a), Mul(c, a))
  {
  }

  lemma ScaleMul(c: real, a: Complex, b: Complex)
    ensures Mul(Scale(c, a), b) == Scale(c, Mul(a, b)) == Mul(a, Scale(c, b))
  {
    assert (c * a.re) * b.re == c * (a.re * b.re) == a.re * (c * b.re);
    assert (c * a.im) * b.im == c * (a.im * b.im) == a.im * (c * b.im);
    assert (c * a.re) * b.im == c * (a.re * b.im) == a.re * (c * b.im);
    assert (c * a.im) * b.re == c * (a.im * b.re) == a.im * (c * b.re);
  }

  lemma MulOne(z: Complex)
    ensures Mul(ONE, z) == z == Mul(z, ONE)
  {
  }

  lemma {:induction false} PowAdd(z: Complex, j: nat, k: nat)
    ensures Pow(z, j + k) == Mul(Pow(z, j), Pow(z, k))
  {
    hide Mul;
    MulOne(Pow(z, k));
    if j > 0 {
      PowAdd(z, j - 1, k);
      MulAssociates(z, Pow(z, j - 1), Pow(z, k));
    }
  }

  lemma {:induction false} PowPow(z: Complex, j: nat, k: nat)
    ensures Pow(Pow(z, j), k) == Pow(z, j * k)
  {
    hide Mul;
    if k > 0 {
      PowPow(z, j, k - 1);
      PowAdd(z, j, j * (k - 1));
      assert j + j * (k - 1) == j * k;
    }
  }

  lemma {:induction false} PowOne(k: nat)
    ensures Pow(ONE, k) == ONE
  {
    hide Mul;
    if k > 0 {
      MulOne(ONE);
      PowOne(k - 1);
    }
  }

  lemma {:induction false} PowMul(a: Complex, b: Complex, k: nat)
    ensures Pow(Mul(a, b), k) == Mul(Pow(a, k), Pow(b, k))
  {
    hide Mul;
    MulOne(ONE);
    if k > 0 {
      PowMul(a, b, k - 1);
      MulInterchange(a, b, Pow(a, k - 1), Pow(b, k - 1));
    }
  }

  lemma MulInterchange(a: Complex, b: Complex, c: Complex, d: Complex)
    ensures Mul(Mul(a, b), Mul(c, d)) == Mul(Mul(a, c), Mul(b, d))
  {
    hide Mul;
    MulAssociates(a, b, Mul(c, d));
    MulAssociates(b, c, d);
    MulCommutes(b, c);
    MulAssociates(c, b, d);
    MulAssociates(a, c, Mul(b, d));
  }

  lemma {:induction false} ConjPow(z: Complex, k: nat)
    ensures Conj(Pow(z, k)) == Pow(Conj(z), k)
  {
    hide Mul;
    if k > 0 {
      ConjPow(z, k - 1);
      ConjMul(z, Pow(z, k - 1));
    }
  }

  lemma ConjMul(a: Complex, b: Complex)
    ensures Conj(Mul(a, b)) == Mul(Conj(a), Conj(b))
  {
  }

  lemma {:induction false} NormPow(z: Complex, k: nat)
    ensures Norm(Pow(z, k)) == RealPow(Norm(z), k)
  {
    hide Mul;
    if k > 0 {
      NormPow(z, k - 1);
      NormMul(z, Pow(z, k - 1));
    }
  }

  lemma NormMul(a: Complex, b: Complex)
    ensures Norm(Mul(a, b)) == Norm(a) * Norm(b)
  {
  }

  lemma MulConj(a: Complex)
    ensures Mul(a, Conj(a)) == Complex(Norm(a), 0.0)
    ensures Norm(a) >= 0.0
    ensures Norm(MINUS_ONE) == 1.0 && Conj(MINUS_ONE) == MINUS_ONE
  {
  }

  /** A non-negative real with some positive power equal to one is one. */
  lemma {:induction false} RealPowMonotone(a: real, k: nat)
    requires a >= 0.0
    ensures a < 1.0 && k >= 1 ==> 0.0 <= RealPow(a, k) < 1.0
    ensures a > 1.0 && k >= 1 ==> RealPow(a, k) > 1.0
  {
    if k > 1 {
      RealPowMonotone(a, k - 1);
      if a > 1.0 {
        assert a * RealPow(a, k - 1) > a * 1.0;
      } else if a < 1.0 {
        assert a * RealPow(a, k - 1) <= a * 1.0;
      }
    }
  }

  /** A root of minus one lies on the unit circle, so its conjugate is its inverse. */
  lemma ConjInverts(w: Complex, h: nat)
    requires h >= 1 && Pow(w, h) == MINUS_ONE
    ensures Mul(w, Conj(w)) == ONE
    ensures Pow(Conj(w), h) == MINUS_ONE
  {
    hide Mul, Norm, Conj, Pow, RealPow;
    MulConj(w);
    MulConj(MINUS_ONE);
    NormPow(w, h);
    RealPowMonotone(Norm(w), h);
    ConjPow(w, h);
  }
}
