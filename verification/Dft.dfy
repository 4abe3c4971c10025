/** The discrete Fourier transform as a direct sum, and the two facts about it that the fast
    form rests on: how a transform splits into its even and odd halves, and how a second
    transform with the inverse root undoes the first. */
module Dft {
  import opened ComplexNumbers

  type Signal = nat -> Complex

  /** The defining sum of the transform: the sum over j < len of f(j) * w^(j*k). */
  function DirectSum(f: Signal, len: nat, w: Complex, k: nat): Complex {
    if len == 0 then ZERO
    else Add(DirectSum(f, len - 1, w, k), Mul(f(len - 1), Pow(w, (len - 1) * k)))
  }

  /** The polynomial with coefficients f(0), ..., f(len-1) at the point z. */
  function Eval(f: Signal, len: nat, z: Complex): Complex {
    if len == 0 then ZERO else Add(Eval(f, len - 1, z), Mul(f(len - 1), Pow(z, len - 1)))
  }

  /** Point k of the transform is the value of the signal's polynomial at w^k. */
  function Transform(f: Signal, len: nat, w: Complex, k: nat): Complex {
    Eval(f, len, Pow(w, k))
  }

  lemma {:induction false} TransformIsDirectSum(f: Signal, len: nat, w: Complex, k: nat)
    ensures Transform(f, len, w, k) == DirectSum(f, len, w, k)
  {
    hide Mul, Add, Pow;
    if len > 0 {
      TransformIsDirectSum(f, len - 1, w, k);
      PowPow(w, k, len - 1);
    }
  }

  function Even(f: Signal): Signal {
    (q: nat) => f(2 * q)
  }

  function Odd(f: Signal): Signal {
    (q: nat) => f(2 * q + 1)
  }

  function Plus(f: Signal, g: Signal): Signal {
    (q: nat) => Add(f(q), g(q))
  }

  function Times(c: real, f: Signal): Signal {
    (q: nat) => Scale(c, f(q))
  }

  function Shift(f: Signal, h: nat): Signal {
    (q: nat) => f(q + h)
  }

  function Twist(f: Signal, w: Complex): Signal {
    (q: nat) => Mul(f(q), Pow(w, q))
  }

  /** The transform of a signal, itself a signal. */
  function Spectrum(f: Signal, len: nat, w: Complex): Signal {
    (k: nat) => Transform(f, len, w, k)
  }

  // ---------------------------------------------------------------- ring steps

  lemma AddLaws(a: Complex, b: Complex, c: Complex, d: Complex)
    ensures Add(Add(Add(a, b), c), d) == Add(Add(a, c), Add(b, d)) == Add(Add(a, b), Add(c, d))
    ensures Add(a, ZERO) == a
  {
  }

  lemma MulZero(a: Complex)
    ensures Mul(a, ZERO) == ZERO
  {
  }

  lemma MulMinusOne(a: Complex)
    ensures Mul(a, MINUS_ONE) == Scale(-1.0, a) == Mul(MINUS_ONE, a)
    ensures Mul(MINUS_ONE, MINUS_ONE) == ONE
  {
  }

  lemma MulSwap(a: Complex, b: Complex, c: Complex)
    ensures Mul(a, Mul(b, c)) == Mul(b, Mul(a, c))
  {
    hide Mul;
    MulAssociates(a, b, c);
    MulCommutes(a, b);
    MulAssociates(b, a, c);
  }

  lemma ScaleAdd(c: real, a: Complex, b: Complex)
    ensures Scale(c, Add(a, b)) == Add(Scale(c, a), Scale(c, b))
    ensures Scale(c, ZERO) == ZERO
  {
  }

  lemma AddSub(e: Complex, t: Complex)
    ensures Add(e, Scale(-1.0, t)) == Sub(e, t)
    ensures Add(Add(e, t), Sub(e, t)) == Scale(2.0, e)
    ensures Sub(Add(e, t), Sub(e, t)) == Scale(2.0, t)
  {
  }

  lemma ScaleTwice(h: nat, a: Complex)
    ensures Scale(2.0, Scale(h as real, a)) == Scale((2 * h) as real, a)
  {
    var c := h as real;
    assert (2 * h) as real == 2.0 * c;
    assert 2.0 * (c * a.re) == (2.0 * c) * a.re;
    assert 2.0 * (c * a.im) == (2.0 * c) * a.im;
  }

  lemma PowSquare(w: Complex, k: nat)
    ensures Pow(Mul(w, w), k) == Pow(w, 2 * k) == Mul(Pow(w, k), Pow(w, k))
  {
    hide Mul;
    PowMul(w, w, k);
    PowAdd(w, k, k);
  }

  // ---------------------------------------------------------------- polynomial identities

  lemma {:induction false} EvalCongruent(f: Signal, g: Signal, len: nat, z: Complex)
    requires forall q: nat :: q < len ==> f(q) == g(q)
    ensures Eval(f, len, z) == Eval(g, len, z)
  {
    hide Mul, Add, Pow;
    if len > 0 {
      EvalCongruent(f, g, len - 1, z);
    }
  }

  /** Danielson-Lanczos: a polynomial from its even and its odd coefficients. */
  lemma {:induction false} EvenOddSplit(f: Signal, h: nat, z: Complex)
    ensures Eval(f, 2 * h, z) == Add(Eval(Even(f), h, Mul(z, z)), Mul(z, Eval(Odd(f), h, Mul(z, z))))
  {
    hide Mul, Add;
    if h == 0 {
      MulZero(z);
      AddLaws(ZERO, ZERO, ZERO, ZERO);
    } else {
      EvenOddSplit(f, h - 1, z);
      var j := h - 1;
      var e, o, zz, y := f(2 * j), f(2 * j + 1), Mul(z, z), Pow(z, 2 * j);
      PowSquare(z, j);
      MulSwap(o, z, y);
      MulDistributes(z, Eval(Odd(f), j, zz), Mul(o, y));
      AddLaws(Eval(Even(f), j, zz), Mul(z, Eval(Odd(f), j, zz)), Mul(e, y), Mul(z, Mul(o, y)));
      assert Eval(f, 2 * j + 1, z) == Add(Eval(f, 2 * j, z), Mul(e, y));
      assert Eval(f, 2 * h, z) == Add(Eval(f, 2 * j + 1, z), Mul(o, Mul(z, y)));
    }
  }

  lemma {:induction false} EvalAdd(f: Signal, g: Signal, len: nat, z: Complex)
    ensures Eval(Plus(f, g), len, z) == Add(Eval(f, len, z), Eval(g, len, z))
  {
    hide Mul, Add, Pow;
    if len == 0 {
      AddLaws(ZERO, ZERO, ZERO, ZERO);
    } else {
      var j := len - 1;
      EvalAdd(f, g, j, z);
      MulDistributes(Pow(z, j), f(j), g(j));
      AddLaws(Eval(f, j, z), Eval(g, j, z), Mul(f(j), Pow(z, j)), Mul(g(j), Pow(z, j)));
    }
  }

  lemma {:induction false} EvalScale(c: real, f: Signal, len: nat, z: Complex)
    ensures Eval(Times(c, f), len, z) == Scale(c, Eval(f, len, z))
  {
    hide Mul, Scale, Add, Pow;
    if len == 0 {
      ScaleAdd(c, ZERO, ZERO);
    } else {
      var j := len - 1;
      EvalScale(c, f, j, z);
      ScaleMul(c, f(j), Pow(z, j));
      ScaleAdd(c, Eval(f, j, z), Mul(f(j), Pow(z, j)));
    }
  }

  /** Splitting the coefficients at h. */
  lemma {:induction false} EvalConcat(f: Signal, h: nat, m: nat, z: Complex)
    ensures Eval(f, h + m, z) == Add(Eval(f, h, z), Mul(Pow(z, h), Eval(Shift(f, h), m, z)))
  {
    hide Mul, Add, Pow;
    var c := Pow(z, h);
    if m == 0 {
      MulZero(c);
      AddLaws(Eval(f, h, z), ZERO, ZERO, ZERO);
    } else {
      var j := m - 1;
      EvalConcat(f, h, j, z);
      PowAdd(z, h, j);
      var t := Mul(f(j + h), Pow(z, j));
      MulSwap(f(j + h), c, Pow(z, j));
      MulDistributes(c, Eval(Shift(f, h), j, z), t);
      AddLaws(Eval(f, h, z), Mul(c, Eval(Shift(f, h), j, z)), Mul(c, t), ZERO);
      AddLaws(Mul(c, Eval(Shift(f, h), j, z)), Mul(c, t), ZERO, ZERO);
      AddAssociates(Eval(f, h, z), Mul(c, Eval(Shift(f, h), j, z)), Mul(c, t));
      assert Eval(f, h + m, z) == Add(Eval(f, h + j, z), Mul(f(j + h), Pow(z, h + j)));
    }
  }

  lemma AddAssociates(a: Complex, b: Complex, c: Complex)
    ensures Add(Add(a, b), c) == Add(a, Add(b, c))
  {
  }

  /** A factor w^k on every coefficient moves into the point of evaluation. */
  lemma {:induction false} EvalTwist(g: Signal, len: nat, w: Complex, z: Complex)
    ensures Eval(Twist(g, w), len, z) == Eval(g, len, Mul(w, z))
  {
    hide Mul, Add, Pow;
    if len > 0 {
      var k := len - 1;
      EvalTwist(g, k, w, z);
      MulAssociates(g(k), Pow(w, k), Pow(z, k));
      PowMul(w, z, k);
    }
  }

  /** The response to an impulse: one sample at j contributes its value times w^(jk) to point k. */
  lemma {:induction false} ImpulseResponse(x: Signal, n: nat, w: Complex, j: nat, k: nat, jk: nat)
    requires jk == j * k && forall q: nat :: q < n && q != j ==> x(q) == ZERO
    ensures DirectSum(x, n, w, k) == if j < n then Mul(x(j), Pow(w, jk)) else ZERO
  {
    hide Mul, Add, Pow;
    if n > 0 {
      ImpulseResponse(x, n - 1, w, j, k, jk);
      var e := (n - 1) * k;
      LastTerm(x, n, w, k, e);
      hide DirectSum;
      if j == n - 1 {
        AddZero(Mul(x(j), Pow(w, jk)));
      } else {
        MulZero(Pow(w, e));
        MulCommutes(ZERO, Pow(w, e));
        AddZero(DirectSum(x, n - 1, w, k));
      }
    }
  }

  lemma LastTerm(x: Signal, n: nat, w: Complex, k: nat, e: nat)
    requires n > 0 && e == (n - 1) * k
    ensures DirectSum(x, n, w, k) == Add(DirectSum(x, n - 1, w, k), Mul(x(n - 1), Pow(w, e)))
  {
    hide Mul, Add, Pow;
  }

  lemma AddZero(a: Complex)
    ensures Add(a, ZERO) == a == Add(ZERO, a)
  {
  }

  /** Responses add up, so the impulse responses determine the whole transform. */
  lemma ResponsesAdd(f: Signal, g: Signal, h: Signal, n: nat, w: Complex, k: nat)
    requires forall q: nat :: q < n ==> h(q) == Complex(f(q).re + g(q).re, f(q).im + g(q).im)
    ensures DirectSum(h, n, w, k).re == DirectSum(f, n, w, k).re + DirectSum(g, n, w, k).re
    ensures DirectSum(h, n, w, k).im == DirectSum(f, n, w, k).im + DirectSum(g, n, w, k).im
  {
    hide Eval, Pow, DirectSum;
    TransformIsDirectSum(f, n, w, k);
    TransformIsDirectSum(g, n, w, k);
    TransformIsDirectSum(h, n, w, k);
    EvalAdd(f, g, n, Pow(w, k));
    EvalCongruent(h, Plus(f, g), n, Pow(w, k));
  }

  // ---------------------------------------------------------------- the butterfly

  /** Both outputs of one inner step of the program, for a root w with w^h = -1. */
  lemma Butterfly(f: Signal, h: nat, w: Complex, k: nat)
    requires Pow(w, h) == MINUS_ONE
    ensures var e, t := Transform(Even(f), h, Mul(w, w), k),
                        Mul(Transform(Odd(f), h, Mul(w, w), k), Pow(w, k));
      && Transform(f, 2 * h, w, k) == Add(e, t)
      && Transform(f, 2 * h, w, k + h) == Sub(e, t)
  {
    hide Mul, Add, Sub, Pow, Scale;
    var z, zh := Pow(w, k), Pow(w, k + h);
    PowAdd(w, k, h);
    MulMinusOne(z);
    PowSquare(w, k);
    assert Mul(zh, zh) == Mul(z, z) by {
      MulInterchange(z, MINUS_ONE, z, MINUS_ONE);
      MulMinusOne(MINUS_ONE);
      MulOne(Mul(z, z));
    }
    EvenOddSplit(f, h, z);
    EvenOddSplit(f, h, zh);
    var e, o := Eval(Even(f), h, Mul(z, z)), Eval(Odd(f), h, Mul(z, z));
    MulCommutes(z, o);
    ScaleMul(-1.0, z, o);
    AddSub(e, Mul(o, z));
  }

  // ---------------------------------------------------------------- the inverse transform

  predicate PowerOfTwo(n: nat) {
    n == 1 || (n >= 2 && n % 2 == 0 && PowerOfTwo(n / 2))
  }

  /** w is a primitive root for a transform of n = 2^m points. */
  predicate RootOfUnity(w: Complex, n: nat) {
    if n < 2 then w == ONE else Pow(w, n / 2) == MINUS_ONE
  }

  lemma RootSquared(w: Complex, n: nat)
    requires n % 2 == 0 && PowerOfTwo(n) && RootOfUnity(w, n)
    ensures RootOfUnity(Mul(w, w), n / 2)
  {
    hide Mul, Pow;
    if n == 2 {
      PowFirst(w);
      MulMinusOne(MINUS_ONE);
    } else {
      PowSquare(w, n / 4);
    }
  }

  lemma HalfTurn(v: Complex, h: nat, j: nat)
    requires Pow(v, h) == MINUS_ONE
    ensures Pow(Pow(v, j), h) == if j % 2 == 0 then ONE else MINUS_ONE
  {
    hide Mul, Scale, Pow;
    var q := j / 2;
    assert j * h == h * j;
    PowPow(v, j, h);
    PowPow(v, h, j);
    PowSquare(MINUS_ONE, q);
    MulMinusOne(MINUS_ONE);
    PowOne(q);
    PowStep(MINUS_ONE, 2 * q);
    MulOne(MINUS_ONE);
  }

  /** Evaluating 2h coefficients at v^j, when v^h = -1: the two halves are added for an even
      j and subtracted for an odd one. */
  lemma FoldHalves(f: Signal, h: nat, v: Complex, j: nat)
    requires Pow(v, h) == MINUS_ONE
    ensures j % 2 == 0 ==> Transform(f, 2 * h, v, j) == Eval(Plus(f, Shift(f, h)), h, Pow(v, j))
    ensures j % 2 == 1 ==> Transform(f, 2 * h, v, j) == Eval(Plus(f, Times(-1.0, Shift(f, h))), h, Pow(v, j))
  {
    hide Mul, Add, Scale, Pow, Eval;
    var z, g := Pow(v, j), Shift(f, h);
    HalfTurn(v, h, j);
    EvalConcat(f, h, h, z);
    if j % 2 == 0 {
      MulOne(Eval(g, h, z));
      EvalAdd(f, g, h, z);
    } else {
      MulMinusOne(Eval(g, h, z));
      EvalScale(-1.0, g, h, z);
      EvalAdd(f, Times(-1.0, g), h, z);
    }
  }

  lemma PowFirst(z: Complex)
    ensures Pow(z, 1) == z
  {
    hide Mul;
    MulOne(z);
    assert Pow(z, 0) == ONE;
  }

  lemma PowStep(z: Complex, k: nat)
    ensures Pow(z, k + 1) == Mul(z, Pow(z, k))
  {
  }

  /** Inversion: transforming with w and then with its inverse v multiplies every sample by n. */
  lemma {:induction false} TransformInverts(f: Signal, n: nat, w: Complex, v: Complex, j: nat)
    requires PowerOfTwo(n) && RootOfUnity(w, n) && RootOfUnity(v, n) && Mul(w, v) == ONE
    requires j < n
    ensures Transform(Spectrum(f, n, w), n, v, j) == Scale(n as real, f(j))
    decreases n
  {
    hide Mul, Add, Sub, Scale, Pow, Eval;
    if n == 1 {
      InvertSinglePoint(f, w, v);
    } else {
      var h, q := n / 2, j / 2;
      var ww, vv := Mul(w, w), Mul(v, v);
      RootSquared(w, n);
      RootSquared(v, n);
      MulInterchange(w, w, v, v);
      MulOne(ONE);
      FoldHalves(Spectrum(f, n, w), h, v, j);
      PowSquare(v, q);
      if j % 2 == 0 {
        TransformInverts(Even(f), h, ww, vv, q);
        FoldEven(f, h, w, Pow(v, j));
        ScaleTwice(h, Even(f)(q));
      } else {
        TransformInverts(Odd(f), h, ww, vv, q);
        FoldOdd(f, h, w, Pow(v, j));
        PowStep(v, 2 * q);
        MulAssociates(w, v, Pow(v, 2 * q));
        MulOne(Pow(v, 2 * q));
        ScaleTwice(h, Odd(f)(q));
      }
    }
  }

  /** Adding the halves of a spectrum leaves twice the spectrum of the even samples. */
  lemma FoldEven(f: Signal, h: nat, w: Complex, z: Complex)
    requires Pow(w, h) == MINUS_ONE
    ensures var F := Spectrum(f, 2 * h, w);
      Eval(Plus(F, Shift(F, h)), h, z) == Scale(2.0, Eval(Spectrum(Even(f), h, Mul(w, w)), h, z))
  {
    hide Mul, Add, Sub, Scale, Pow, Eval;
    var F, G := Spectrum(f, 2 * h, w), Spectrum(Even(f), h, Mul(w, w));
    forall k: nat | k < h ensures Plus(F, Shift(F, h))(k) == Times(2.0, G)(k) {
      Butterfly(f, h, w, k);
      AddSub(G(k), Mul(Transform(Odd(f), h, Mul(w, w), k), Pow(w, k)));
    }
    EvalCongruent(Plus(F, Shift(F, h)), Times(2.0, G), h, z);
    EvalScale(2.0, G, h, z);
  }

  /** Subtracting them leaves twice the spectrum of the odd samples, twisted by w. */
  lemma FoldOdd(f: Signal, h: nat, w: Complex, z: Complex)
    requires Pow(w, h) == MINUS_ONE
    ensures var F := Spectrum(f, 2 * h, w);
      Eval(Plus(F, Times(-1.0, Shift(F, h))), h, z)
      == Scale(2.0, Eval(Spectrum(Odd(f), h, Mul(w, w)), h, Mul(w, z)))
  {
    hide Mul, Add, Sub, Scale, Pow, Eval;
    var F, G := Spectrum(f, 2 * h, w), Spectrum(Odd(f), h, Mul(w, w));
    var folded := Plus(F, Times(-1.0, Shift(F, h)));
    forall k: nat | k < h ensures folded(k) == Twist(Times(2.0, G), w)(k) {
      var e, t := Transform(Even(f), h, Mul(w, w), k), Mul(G(k), Pow(w, k));
      Butterfly(f, h, w, k);
      AddSub(Add(e, t), Sub(e, t));
      AddSub(e, t);
      ScaleMul(2.0, G(k), Pow(w, k));
    }
    EvalCongruent(folded, Twist(Times(2.0, G), w), h, z);
    EvalTwist(Times(2.0, G), h, w, z);
    EvalScale(2.0, G, h, Mul(w, z));
  }

  lemma InvertSinglePoint(f: Signal, w: Complex, v: Complex)
    ensures Transform(Spectrum(f, 1, w), 1, v, 0) == Scale(1.0, f(0))
  {
    hide Mul;
    MulOne(f(0));
    MulOne(Eval(f, 1, Pow(w, 0)));
    assert Pow(Pow(v, 0), 0) == ONE == Pow(Pow(w, 0), 0);
  }
}
