/** The in-place radix-2 transform, and the benchmark that runs it forwards and backwards. */
module Fft {
  import opened ComplexNumbers
  import opened Dft
  import opened Arithmetic
  import opened BitReversal

  // ---------------------------------------------------------------- the meaning of a stage

  /** The samples that end up in block b when the signal is dealt into m interleaved blocks. */
  function Share(f: Signal, m: nat, b: nat): Signal {
    if m <= 1 then f
    else if b % 2 == 0 then Even(Share(f, m / 2, b / 2))
    else Odd(Share(f, m / 2, b / 2))
  }

  /** Block b of m blocks holds every m-th sample, starting at the reversal of b. */
  lemma {:induction false} ShareIsStrided(f: Signal, m: nat, b: nat, q: nat)
    requires PowerOfTwo(m)
    ensures Share(f, m, b)(q) == f(Rev(m, b) + q * m)
  {
    if m > 1 {
      var h := m / 2;
      DoubleStride(q, h);
      if b % 2 == 1 {
        ShareIsStrided(f, h, b / 2, 2 * q + 1);
      } else {
        ShareIsStrided(f, h, b / 2, 2 * q);
      }
    }
  }

  lemma DoubleStride(q: nat, h: nat)
    ensures (2 * q) * h == q * (2 * h) && (2 * q + 1) * h == q * (2 * h) + h
  {
  }

  /** What position p holds once every block of len points is transformed. */
  function StageValue(f: Signal, w: Complex, n: nat, len: nat, p: nat): Complex
    requires len >= 1
  {
    Transform(Share(f, n / len, p / len), len, Pow(w, n / len), p % len)
  }

  lemma StageValueOfBlock(f: Signal, w: Complex, m: nat, len: nat, b: nat, k: nat)
    requires len >= 1 && k < len
    ensures StageValue(f, w, m * len, len, b * len + k) == Transform(Share(f, m, b), len, Pow(w, m), k)
  {
    hide Transform, Share, Pow;
    Quotient(m * len, len, m, 0);
    Quotient(b * len + k, len, b, k);
  }

  /** One butterfly takes two values of the stage with blocks of h points to the two
      corresponding values of the stage with blocks of 2h points. */
  lemma StageStep(f: Signal, w: Complex, m: nat, h: nat, b: nat, k: nat)
    requires h >= 1 && k < h && b < m && Pow(w, m * h) == MINUS_ONE
    ensures var n, i := m * (2 * h), b * (2 * h);
      var e, t := StageValue(f, w, n, h, i + k), Mul(StageValue(f, w, n, h, i + k + h), Pow(w, k * m));
      && StageValue(f, w, n, 2 * h, i + k) == Add(e, t)
      && StageValue(f, w, n, 2 * h, i + k + h) == Sub(e, t)
  {
    hide Mul, Add, Sub, Pow, StageValue, Transform, Share;
    BlockIndices(m, h, b, k);
    StageValueOfBlock(f, w, m, 2 * h, b, k);
    StageValueOfBlock(f, w, m, 2 * h, b, k + h);
    StageValueOfBlock(f, w, 2 * m, h, 2 * b, k);
    StageValueOfBlock(f, w, 2 * m, h, 2 * b + 1, k);
    ShareHalves(f, m, b);
    PowPow(w, m, h);
    PowSquare(w, m);
    PowPow(w, m, k);
    Butterfly(Share(f, m, b), h, Pow(w, m), k);
  }

  lemma BlockIndices(m: nat, h: nat, b: nat, k: nat)
    ensures m * (2 * h) == (2 * m) * h
    ensures b * (2 * h) + k == (2 * b) * h + k
    ensures b * (2 * h) + k + h == (2 * b + 1) * h + k == b * (2 * h) + (k + h)
    ensures k * m == m * k
  {
  }

  lemma ShareHalves(f: Signal, m: nat, b: nat)
    requires m >= 1
    ensures Share(f, 2 * m, 2 * b) == Even(Share(f, m, b))
    ensures Share(f, 2 * m, 2 * b + 1) == Odd(Share(f, m, b))
  {
    hide Even, Odd;
    var n, c := 2 * m, 2 * b + 1;
    assert n / 2 == m && c / 2 == b && c % 2 == 1;
    assert 2 * b / 2 == b && 2 * b % 2 == 0;
  }

  // ---------------------------------------------------------------- arrays

  /** The signal held by a pair of arrays. */
  function Samples(re: seq<real>, im: seq<real>): Signal {
    (q: nat) => if q < |re| && q < |im| then Complex(re[q], im[q]) else ZERO
  }

  ghost function Point(re: array<real>, im: array<real>, p: nat): Complex
    requires p < re.Length && p < im.Length
    reads re, im
  {
    Complex(re[p], im[p])
  }

  /** The tables hold the powers of w. */
  ghost predicate TwiddleTable(cosT: array<real>, sinT: array<real>, w: Complex)
    reads cosT, sinT
  {
    cosT.Length == sinT.Length && forall k: nat :: k < cosT.Length ==> Point(cosT, sinT, k) == Pow(w, k)
  }

  /** The swap pass applies exactly the bit-reversal permutation. */
  method SwapPass(re: array<real>, im: array<real>, rev: array<nat>)
    requires re != im && re.Length == im.Length == rev.Length && PowerOfTwo(re.Length)
    requires forall i :: 0 <= i < rev.Length ==> rev[i] == Rev(rev.Length, i)
    modifies re, im
    ensures forall p: nat :: p < re.Length ==>
      Rev(re.Length, p) < re.Length && Point(re, im, p) == old(Point(re, im, Rev(re.Length, p)))
  {
    var n := re.Length;
    forall p: nat | p < n ensures Rev(n, p) < n && Rev(n, Rev(n, p)) == p {
      RevInvolution(n, p);
    }
    for i := 0 to n
      invariant forall p: nat :: p < n ==>
        Point(re, im, p) == if p < i || Rev(n, p) < i then old(Point(re, im, Rev(n, p))) else old(Point(re, im, p))
    {
      var j := rev[i];
      if i < j {
        re[i], re[j] := re[j], re[i];
        im[i], im[j] := im[j], im[i];
      }
    }
  }

  /** The body of the innermost loop. */
  method Combine(re: array<real>, im: array<real>, a: nat, b: nat, wr: real, wi: real)
    requires re != im && re.Length == im.Length && a < b < re.Length
    modifies re, im
    ensures Point(re, im, a) == Add(old(Point(re, im, a)), Mul(old(Point(re, im, b)), Complex(wr, wi)))
    ensures Point(re, im, b) == Sub(old(Point(re, im, a)), Mul(old(Point(re, im, b)), Complex(wr, wi)))
    ensures forall p: nat :: p < re.Length && p != a && p != b ==> Point(re, im, p) == old(Point(re, im, p))
  {
    var tr := re[b] * wr - im[b] * wi;
    var ti := re[b] * wi + im[b] * wr;
    ghost var pa, pb := Point(re, im, a), Point(re, im, b);
    assert Complex(tr, ti) == Mul(pb, Complex(wr, wi));
    hide Mul;
    re[b] := re[a] - tr;
    im[b] := im[a] - ti;
    re[a] := re[a] + tr;
    im[a] := im[a] + ti;
  }

  /** One pass of the outer loop: every block of len points is assembled from two halves. */
  method Stage(re: array<real>, im: array<real>, cosT: array<real>, sinT: array<real>, len: nat,
               ghost m: nat, ghost f: Signal, ghost w: Complex)
    requires re != im && re != cosT && re != sinT && im != cosT && im != sinT
    requires re.Length == im.Length == cosT.Length == sinT.Length
    requires len >= 2 && len % 2 == 0 && m >= 1 && re.Length == m * len
    requires TwiddleTable(cosT, sinT, w) && Pow(w, m * (len / 2)) == MINUS_ONE
    requires forall p: nat :: p < re.Length ==> Point(re, im, p) == StageValue(f, w, re.Length, len / 2, p)
    modifies re, im
    ensures forall p: nat :: p < re.Length ==> Point(re, im, p) == StageValue(f, w, re.Length, len, p)
  {
    hide Transform, Pow, StageValue, Mul, Add, Sub;
    var n, half, i := re.Length, len / 2, 0;
    ghost var b := 0;
    Quotient(n, len, m, 0);
    while i < n
      invariant i == b * len && b <= m
      invariant forall p: nat :: p < n ==> Point(re, im, p) == StageValue(f, w, n, if p < i then len else half, p)
      decreases n - i
    {
      BlockFits(b, m, len);
      for j := 0 to half
        invariant forall p: nat :: p < n ==>
          Point(re, im, p) == StageValue(f, w, n, if p < i + j || i + half <= p < i + half + j then len else half, p)
      {
        StageStep(f, w, m, half, b, j);
        TwiddleIndex(j, half, m);
        var wr, wi := cosT[j * (n / len)], sinT[j * (n / len)];
        assert Complex(wr, wi) == Pow(w, j * m) by { assert Point(cosT, sinT, j * m) == Pow(w, j * m); }
        Combine(re, im, i + j, i + j + half, wr, wi);
      }
      i, b := i + len, b + 1;
    }
  }

  lemma BlockFits(b: nat, m: nat, len: nat)
    requires b * len < m * len
    ensures b < m && b * len + len <= m * len && (b + 1) * len == b * len + len
  {
    MulMonotone(m, b, len);
    MulMonotone(b + 1, m, len);
  }

  lemma TwiddleIndex(j: nat, half: nat, m: nat)
    requires j < half && m >= 1
    ensures 0 <= j * m < m * (2 * half)
  {
    MulMonotone(j + 1, half, m);
    assert m * (2 * half) == half * m + half * m;
  }

  lemma SingletonStage(f: Signal, w: Complex, n: nat, p: nat)
    requires PowerOfTwo(n) && p < n
    ensures StageValue(f, w, n, 1, p) == f(Rev(n, p))
  {
    hide Mul, Rev, Share;
    var g, z := Share(f, n, p), Pow(Pow(w, n), 0);
    ShareIsStrided(f, n, p, 0);
    MulOne(g(0));
    assert Pow(z, 0) == ONE;
    assert Eval(g, 0, z) == ZERO;
    assert Eval(g, 1, z) == Add(ZERO, Mul(g(0), ONE));
  }

  /** A power of two that divides into q blocks of h points, q > 1, divides into q / 2 of 2h. */
  lemma NextStage(n: nat, q: nat, h: nat)
    requires n == q * h && PowerOfTwo(q) && h >= 1 && 2 * h <= n
    ensures q % 2 == 0 && PowerOfTwo(q / 2) && n == (q / 2) * (2 * h) && (q / 2) * h == n / 2
  {
    if q == 1 {
      assert false;
    }
    assert q == 2 * (q / 2);
    assert n == 2 * ((q / 2) * h);
  }

  lemma HalfPower(w: Complex, n: nat)
    requires RootOfUnity(w, n) && n >= 2
    ensures Pow(w, n / 2) == MINUS_ONE
  {
  }

  /** The loop over the block lengths 2, 4, ..., n. */
  method AllStages(re: array<real>, im: array<real>, cosT: array<real>, sinT: array<real>,
                   ghost f: Signal, ghost w: Complex)
    requires re != im && re != cosT && re != sinT && im != cosT && im != sinT
    requires re.Length == im.Length == cosT.Length == sinT.Length && PowerOfTwo(re.Length)
    requires TwiddleTable(cosT, sinT, w) && RootOfUnity(w, re.Length)
    requires forall p: nat :: p < re.Length ==> Point(re, im, p) == StageValue(f, w, re.Length, 1, p)
    modifies re, im
    ensures forall p: nat :: p < re.Length ==> Point(re, im, p) == StageValue(f, w, re.Length, re.Length, p)
  {
    hide Transform, Pow, StageValue, TwiddleTable, Point, PowerOfTwo, RootOfUnity;
    var n, len := re.Length, 2;
    ghost var q, h := n, 1;
    while len <= n
      invariant h >= 1 && len == 2 * h && n == q * h && PowerOfTwo(q)
      invariant forall p: nat :: p < n ==> Point(re, im, p) == StageValue(f, w, n, h, p)
      decreases 2 * n - len
    {
      NextStage(n, q, h);
      HalfPower(w, n);
      assert len / 2 == h;
      Stage(re, im, cosT, sinT, len, q / 2, f, w);
      len, q, h := 2 * len, q / 2, 2 * h;
    }
    OneBlock(n, q, h);
  }

  /** fft_radix2: the arrays end up holding the direct sum at every point. */
  method FftRadix2(re: array<real>, im: array<real>, cosT: array<real>, sinT: array<real>, rev: array<nat>,
                   ghost w: Complex)
    requires re != im && re != cosT && re != sinT && im != cosT && im != sinT
    requires re.Length == im.Length == cosT.Length == sinT.Length == rev.Length && PowerOfTwo(re.Length)
    requires forall i :: 0 <= i < rev.Length ==> rev[i] == Rev(rev.Length, i)
    requires TwiddleTable(cosT, sinT, w) && RootOfUnity(w, re.Length)
    modifies re, im
    ensures forall k: nat :: k < re.Length ==>
      Point(re, im, k) == DirectSum(Samples(old(re[..]), old(im[..])), re.Length, w, k)
  {
    hide Transform, Pow, StageValue, DirectSum, Rev, PowerOfTwo;
    var n := re.Length;
    ghost var f := Samples(re[..], im[..]);
    SwapPass(re, im, rev);
    forall p: nat | p < n ensures Point(re, im, p) == StageValue(f, w, n, 1, p) {
      SingletonStage(f, w, n, p);
    }
    AllStages(re, im, cosT, sinT, f, w);
    forall k: nat | k < n ensures StageValue(f, w, n, n, k) == DirectSum(f, n, w, k) {
      LastStage(f, w, n, k);
    }
  }

  lemma LastStage(f: Signal, w: Complex, n: nat, k: nat)
    requires k < n
    ensures StageValue(f, w, n, n, k) == DirectSum(f, n, w, k)
  {
    hide Transform, DirectSum, Pow, StageValue;
    StageValueOfBlock(f, w, 1, n, 0, k);
    PowFirst(w);
    TransformIsDirectSum(f, n, w, k);
  }

  lemma OneBlock(n: nat, q: nat, h: nat)
    requires n == q * h && PowerOfTwo(q) && 2 * h > n
    ensures h == n
  {
    if q >= 2 {
      MulMonotone(2, q, h);
    }
  }

  // ---------------------------------------------------------------- the benchmark

  /** The standard facts about the circular functions that the twiddle tables need. */
  datatype Trig = Trig(cos: real -> real, sin: real -> real, pi: real) {

    ghost predicate AdditionLaw(a: real, b: real) {
      && cos(a + b) == cos(a) * cos(b) - sin(a) * sin(b)
      && sin(a + b) == cos(a) * sin(b) + sin(a) * cos(b)
    }

    ghost predicate Valid() {
      && (forall a, b :: AdditionLaw(a, b))
      && cos(0.0) == 1.0 && sin(0.0) == 0.0
      && cos(-pi) == -1.0 && sin(-pi) == 0.0
    }

    function Angle(n: nat, i: nat): real
      requires n >= 1
    {
      -2.0 * pi * (i as real) / (n as real)
    }

    function Twiddle(n: nat, i: nat): Complex
      requires n >= 1
    {
      Complex(cos(Angle(n, i)), sin(Angle(n, i)))
    }
  }

  lemma AngleStep(t: Trig, n: nat, i: nat)
    requires n >= 1
    ensures t.Angle(n, i + 1) == t.Angle(n, 1) + t.Angle(n, i) && t.Angle(n, 0) == 0.0
  {
    var x, d := -2.0 * t.pi, n as real;
    assert x * ((i + 1) as real) == x + x * (i as real);
    assert (x + x * (i as real)) / d == x / d + x * (i as real) / d;
  }

  lemma HalfTurnAngle(t: Trig, h: nat)
    requires h >= 1
    ensures t.Angle(2 * h, h) == -t.pi
  {
    var d := h as real;
    assert (2 * h) as real == 2.0 * d;
    assert -2.0 * t.pi * d == -t.pi * (2.0 * d);
  }

  lemma {:induction false} TwiddleIsPower(t: Trig, n: nat, i: nat)
    requires t.Valid() && n >= 1
    ensures t.Twiddle(n, i) == Pow(t.Twiddle(n, 1), i)
  {
    hide Mul, Pow, t.Twiddle, t.Valid;
    if i == 0 {
      TwiddleStep(t, n, 0);
      PowZero(t.Twiddle(n, 1));
    } else {
      TwiddleIsPower(t, n, i - 1);
      TwiddleStep(t, n, i - 1);
      PowStep(t.Twiddle(n, 1), i - 1);
    }
  }

  lemma PowZero(z: Complex)
    ensures Pow(z, 0) == ONE
  {
  }

  /** The next entry of the table is the previous one turned by the angle of the first. */
  lemma TwiddleStep(t: Trig, n: nat, i: nat)
    requires t.Valid() && n >= 1
    ensures t.Twiddle(n, 0) == ONE
    ensures t.Twiddle(n, i + 1) == Mul(t.Twiddle(n, 1), t.Twiddle(n, i))
  {
    hide t.Angle;
    AngleStep(t, n, i);
    assert t.AdditionLaw(t.Angle(n, 1), t.Angle(n, i));
  }

  lemma TwiddleIsRoot(t: Trig, n: nat)
    requires t.Valid() && PowerOfTwo(n)
    ensures RootOfUnity(t.Twiddle(n, 1), n)
  {
    hide Pow, Mul;
    if n == 1 {
      FullTurn(t);
    } else {
      TwiddleIsPower(t, n, n / 2);
      HalfTurn(t, n / 2);
    }
  }

  lemma FullTurn(t: Trig)
    requires t.Valid()
    ensures t.Twiddle(1, 1) == ONE
  {
    assert t.Angle(1, 1) == -t.pi + -t.pi;
    assert t.AdditionLaw(-t.pi, -t.pi);
  }

  lemma HalfTurn(t: Trig, h: nat)
    requires t.Valid() && h >= 1
    ensures t.Twiddle(2 * h, h) == MINUS_ONE
  {
    hide t.Angle;
    HalfTurnAngle(t, h);
  }

  lemma FirstTwiddle(t: Trig, n: nat)
    requires n >= 1
    ensures t.Twiddle(n, 1) == Complex(t.cos(-2.0 * t.pi / (n as real)), t.sin(-2.0 * t.pi / (n as real)))
  {
    assert -2.0 * t.pi * (1 as real) == -2.0 * t.pi;
  }

  lemma TwiddleAt(t: Trig, n: nat, i: nat)
    requires n >= 1
    ensures var a := -2.0 * t.pi * (i as real) / (n as real);
      t.Twiddle(n, i) == Complex(t.cos(a), t.sin(a))
  {
    var a := -2.0 * t.pi * (i as real) / (n as real);
    assert t.Angle(n, i) == a;
  }

  /** What the forward transform does to one sample: at point k the sample at j appears turned by
      the angle -2 pi j k / n. By Dft.ResponsesAdd this determines the transform of any signal. */
  lemma ForwardOfImpulse(t: Trig, n: nat, x: Signal, j: nat, k: nat, jk: nat)
    requires t.Valid() && j < n && jk == j * k && forall q: nat :: q < n && q != j ==> x(q) == Complex(0.0, 0.0)
    ensures var w := Complex(t.cos(-2.0 * t.pi / (n as real)), t.sin(-2.0 * t.pi / (n as real)));
      var a := -2.0 * t.pi * (jk as real) / (n as real);
      DirectSum(x, n, w, k)
        == Complex(x(j).re * t.cos(a) - x(j).im * t.sin(a), x(j).re * t.sin(a) + x(j).im * t.cos(a))
  {
    hide DirectSum, Pow, t.Valid, t.Twiddle;
    FirstTwiddle(t, n);
    ImpulseResponse(x, n, t.Twiddle(n, 1), j, k, jk);
    TwiddleIsPower(t, n, jk);
    TwiddleAt(t, n, jk);
  }

  /** The loop of fp_fft_init that fills both tables. */
  method FillTwiddles(t: Trig, cosT: array<real>, sinT: array<real>)
    requires t.Valid() && cosT != sinT && cosT.Length == sinT.Length >= 1
    modifies cosT, sinT
    ensures forall k: nat :: k < cosT.Length ==> cosT[k] == t.cos(-2.0 * t.pi * (k as real) / (cosT.Length as real))
    ensures forall k: nat :: k < sinT.Length ==> sinT[k] == t.sin(-2.0 * t.pi * (k as real) / (sinT.Length as real))
    ensures TwiddleTable(cosT, sinT, t.Twiddle(cosT.Length, 1))
  {
    hide Pow, t.Valid, t.Twiddle;
    var n := cosT.Length;
    for i := 0 to n
      invariant forall k: nat :: k < i ==> Point(cosT, sinT, k) == t.Twiddle(n, k)
    {
      var a := -2.0 * t.pi * (i as real) / (n as real);
      cosT[i] := t.cos(a);
      sinT[i] := t.sin(a);
      TwiddleAt(t, n, i);
    }
    forall k: nat | k < n
      ensures Point(cosT, sinT, k) == Pow(t.Twiddle(n, 1), k)
      ensures cosT[k] == t.cos(-2.0 * t.pi * (k as real) / (n as real))
      ensures sinT[k] == t.sin(-2.0 * t.pi * (k as real) / (n as real))
    {
      assert Point(cosT, sinT, k) == t.Twiddle(n, k);
      TwiddleIsPower(t, n, k);
      TwiddleAt(t, n, k);
    }
  }

  /** What one point of the second transform holds: n times the original sample. */
  lemma BackwardPoint(x: Signal, y: Signal, n: nat, w: Complex, j: nat)
    requires PowerOfTwo(n) && RootOfUnity(w, n) && j < n
    requires forall k: nat :: k < n ==> y(k) == DirectSum(x, n, w, k)
    ensures DirectSum(y, n, Conj(w), j) == Scale(n as real, x(j))
  {
    hide Transform, Eval, DirectSum, Pow, Mul, Scale;
    ConjugateRoot(w, n);
    forall k: nat | k < n ensures y(k) == Spectrum(x, n, w)(k) {
      TransformIsDirectSum(x, n, w, k);
    }
    TransformCongruent(y, Spectrum(x, n, w), n, Conj(w), j);
    TransformInverts(x, n, w, Conj(w), j);
    TransformIsDirectSum(y, n, Conj(w), j);
  }

  /** The same for buffers: x is a real signal, y its transform, and re and im hold the second
      transform of y. */
  lemma BackwardPoints(x: Signal, y: Signal, n: nat, w: Complex, signal: array<real>, re: array<real>, im: array<real>)
    requires PowerOfTwo(n) && RootOfUnity(w, n) && signal.Length == re.Length == im.Length == n
    requires forall j: nat :: j < n ==> x(j) == Complex(signal[j], 0.0)
    requires forall k: nat :: k < n ==> y(k) == DirectSum(x, n, w, k)
    requires forall j: nat :: j < n ==> Point(re, im, j) == DirectSum(y, n, Conj(w), j)
    ensures forall j: nat :: j < n ==> Point(re, im, j) == Scale(n as real, Complex(signal[j], 0.0))
  {
    hide DirectSum, Scale, Point, RootOfUnity, PowerOfTwo;
    forall j: nat | j < n ensures Point(re, im, j) == Scale(n as real, Complex(signal[j], 0.0)) {
      BackwardPoint(x, y, n, w, j);
    }
  }

  lemma SamplesHold(re: array<real>, im: array<real>)
    requires re.Length == im.Length
    ensures forall k: nat :: k < re.Length ==> Samples(re[..], im[..])(k) == Point(re, im, k)
  {
  }

  lemma TransformCongruent(f: Signal, g: Signal, n: nat, w: Complex, k: nat)
    requires forall q: nat :: q < n ==> f(q) == g(q)
    ensures Transform(f, n, w, k) == Transform(g, n, w, k)
  {
    EvalCongruent(f, g, n, Pow(w, k));
  }

  lemma ConjugateRoot(w: Complex, n: nat)
    requires PowerOfTwo(n) && RootOfUnity(w, n)
    ensures RootOfUnity(Conj(w), n) && Mul(w, Conj(w)) == ONE
  {
    hide Pow;
    if n >= 2 {
      ConjInverts(w, n / 2);
    }
  }

  class FftState {
    const n: nat
    const signalRe: array<real>
    const signalIm: array<real>
    const twiddleCos: array<real>
    const twiddleSin: array<real>
    const bitRev: array<nat>
    const workReal: array<real>
    const workImag: array<real>
    ghost const w: Complex

    ghost predicate Valid()
      reads this, signalRe, twiddleCos, twiddleSin, bitRev
    {
      && Shape()
      && TwiddleTable(twiddleCos, twiddleSin, w) && RootOfUnity(w, n)
      && forall i :: 0 <= i < n ==> bitRev[i] == Rev(n, i)
    }

    /** The seven buffers are separate allocations of n elements. */
    ghost predicate Shape()
      reads this
    {
      && PowerOfTwo(n)
      && n == signalRe.Length == signalIm.Length == twiddleCos.Length == twiddleSin.Length
      && n == bitRev.Length == workReal.Length == workImag.Length
      && workReal != workImag && workReal != signalRe && workImag != signalRe
      && workReal != twiddleCos && workReal != twiddleSin && workImag != twiddleCos && workImag != twiddleSin
      && twiddleSin != twiddleCos && twiddleSin != signalRe
    }

    /** fp_fft_init, with the random samples and the circular functions as parameters. */
    constructor (n: nat, t: Trig, samples: seq<real>)
      requires PowerOfTwo(n) && t.Valid() && |samples| == n
      ensures Valid() && this.n == n && signalRe[..] == samples
      ensures fresh(signalRe) && fresh(signalIm) && fresh(twiddleCos) && fresh(twiddleSin)
      ensures fresh(bitRev) && fresh(workReal) && fresh(workImag)
      ensures w == Complex(t.cos(-2.0 * t.pi / (n as real)), t.sin(-2.0 * t.pi / (n as real)))
      ensures forall k: nat :: k < n ==> twiddleCos[k] == t.cos(-2.0 * t.pi * (k as real) / (n as real))
      ensures forall k: nat :: k < n ==> twiddleSin[k] == t.sin(-2.0 * t.pi * (k as real) / (n as real))
    {
      this.n := n;
      this.w := t.Twiddle(n, 1);
      signalRe := new real[n](i requires 0 <= i < n => samples[i]);
      signalIm := new real[n](_ => 0.0);
      workReal := new real[n](_ => 0.0);
      workImag := new real[n](_ => 0.0);
      twiddleCos := new real[n](_ => 0.0);
      twiddleSin := new real[n](_ => 0.0);
      bitRev := new nat[n](_ => 0);
      new;
      FirstTwiddle(t, n);
      FillTwiddles(t, twiddleCos, twiddleSin);
      TwiddleIsRoot(t, n);
      BuildTable(bitRev);
    }

    /** Negating every sine turns the table of powers of v into that of its conjugate. */
    method NegateSines(ghost v: Complex)
      requires Shape() && TwiddleTable(twiddleCos, twiddleSin, v)
      modifies twiddleSin
      ensures TwiddleTable(twiddleCos, twiddleSin, Conj(v))
      ensures forall i :: 0 <= i < n ==> twiddleSin[i] == -old(twiddleSin[i])
    {
      hide Pow;
      forall k: nat | k < n ensures Conj(Point(twiddleCos, twiddleSin, k)) == Pow(Conj(v), k) {
        ConjPow(v, k);
      }
      for i := 0 to n
        invariant forall k :: 0 <= k < n ==> twiddleSin[k] == if k < i then -old(twiddleSin[k]) else old(twiddleSin[k])
      {
        twiddleSin[i] := -twiddleSin[i];
      }
      forall k: nat | k < n ensures Point(twiddleCos, twiddleSin, k) == Pow(Conj(v), k) {
        assert Point(twiddleCos, twiddleSin, k) == Conj(old(Point(twiddleCos, twiddleSin, k)));
      }
    }

    /** The scaling loop and the accumulated reconstruction error. */
    method ScaleAndCompare() returns (sink: real)
      requires Shape()
      requires forall i: nat :: i < n ==> Point(workReal, workImag, i) == Scale(n as real, Complex(signalRe[i], 0.0))
      modifies workReal, workImag
      ensures sink == 0.0
      ensures workReal[..] == signalRe[..] && forall i :: 0 <= i < n ==> workImag[i] == 0.0
    {
      sink := 0.0;
      for i := 0 to n
        invariant sink == 0.0
        invariant forall k: nat :: k < n ==>
          var z := Complex(signalRe[k], 0.0);
          Point(workReal, workImag, k) == if k < i then z else Scale(n as real, z)
      {
        assert Point(workReal, workImag, i) == Scale(n as real, Complex(signalRe[i], 0.0));
        DivideBack(n as real, signalRe[i]);
        workReal[i] := workReal[i] / (n as real);
        workImag[i] := workImag[i] / (n as real);
        assert Point(workReal, workImag, i) == Complex(signalRe[i], 0.0);
        sink := sink + Abs(workReal[i] - signalRe[i]);
      }
      forall k: nat | k < n ensures workReal[k] == signalRe[k] && workImag[k] == 0.0 {
        assert Point(workReal, workImag, k) == Complex(signalRe[k], 0.0);
      }
    }

    /** fp_fft_measure without the clock: transform, transform back, compare. The program's own
        check finds no error, the work buffers hold the signal again, and the sine table is
        back to its starting value. */
    method Measure() returns (sink: real)
      requires Valid()
      modifies workReal, workImag, twiddleSin
      ensures Valid()
      ensures sink == 0.0
      ensures workReal[..] == signalRe[..] && forall i :: 0 <= i < n ==> workImag[i] == 0.0
      ensures twiddleSin[..] == old(twiddleSin[..])
    {
      hide DirectSum, Pow, Scale, Rev, RootOfUnity, PowerOfTwo, TwiddleTable, Samples;
      Load();
      SamplesHold(workReal, workImag);
      ghost var x := Samples(workReal[..], workImag[..]);
      FftRadix2(workReal, workImag, twiddleCos, twiddleSin, bitRev, w);
      SamplesHold(workReal, workImag);
      ghost var y := Samples(workReal[..], workImag[..]);
      NegateSines(w);
      ConjugateRoot(w, n);
      FftRadix2(workReal, workImag, twiddleCos, twiddleSin, bitRev, Conj(w));
      BackwardPoints(x, y, n, w, signalRe, workReal, workImag);
      sink := ScaleAndCompare();
      NegateSines(Conj(w));
    }

    /** The copy of the signal into the work buffers. */
    method Load()
      requires Shape()
      modifies workReal, workImag
      ensures forall k: nat :: k < n ==> Point(workReal, workImag, k) == Complex(signalRe[k], 0.0)
    {
      forall i | 0 <= i < n {
        workReal[i] := signalRe[i];
      }
      forall i | 0 <= i < n {
        workImag[i] := 0.0;
      }
    }
  }

  lemma DivideBack(n: real, x: real)
    requires n >= 1.0
    ensures n * x / n == x && n * 0.0 / n == 0.0
  {
  }
}
