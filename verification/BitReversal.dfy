/** The bit-reversal permutation and the table that holds it. */
module BitReversal {
  import opened Arithmetic
  import opened Bits
  import opened Dft

  function Log2(n: nat): (e: nat)
    requires PowerOfTwo(n)
    ensures Pow2(e) == n
  {
    if n == 1 then 0 else 1 + Log2(n / 2)
  }

  /** The number whose log2(m) bits are the low bits of b in the opposite order. */
  function Rev(m: nat, b: nat): nat {
    if m <= 1 then 0 else (if b % 2 == 1 then m / 2 else 0) + Rev(m / 2, b / 2)
  }

  lemma {:induction false} RevBelow(m: nat, b: nat)
    requires PowerOfTwo(m)
    ensures Rev(m, b) < m
  {
    if m > 1 {
      RevBelow(m / 2, b / 2);
    }
  }

  lemma {:induction false} BitOfSum(x: nat, e: nat, t: nat)
    requires x < Pow2(e) && t <= e
    ensures Bit(x, t) == if t < e then Bit(x + Pow2(e), t) else 0
    ensures Bit(x + Pow2(e), e) == 1
  {
    if e > 0 {
      assert (x + Pow2(e)) / 2 == x / 2 + Pow2(e - 1);
      BitOfSum(x / 2, e - 1, if t == 0 then 0 else t - 1);
    }
  }

  /** What the permutation means: bit t of the image is bit e-1-t of the index. */
  lemma {:induction false} RevReversesBits(e: nat, b: nat, t: nat)
    requires t < e
    ensures Bit(Rev(Pow2(e), b), t) == Bit(b, e - 1 - t)
  {
    var m := Pow2(e - 1);
    PowerOfPow2(e - 1);
    RevBelow(m, b / 2);
    BitOfSum(Rev(m, b / 2), e - 1, t);
    if t < e - 1 {
      RevReversesBits(e - 1, b / 2, t);
    }
  }

  lemma {:induction false} PowerOfPow2(e: nat)
    ensures PowerOfTwo(Pow2(e))
  {
    if e > 0 {
      PowerOfPow2(e - 1);
    }
  }

  /** The same permutation read from the high end of the index. */
  lemma {:induction false} RevFromHighBit(m: nat, b: nat)
    requires PowerOfTwo(m) && b < 2 * m
    ensures Rev(2 * m, b) == 2 * Rev(m, b % m) + b / m
  {
    hide Rev;
    RevUnfold(m, b);
    if m == 1 {
      RevOfOne(b / 2);
      RevOfOne(b % 1);
    } else {
      var h := m / 2;
      RevFromHighBit(h, b / 2);
      RevUnfold(h, b % m);
      DivModTwo(b, h);
    }
  }

  lemma RevUnfold(m: nat, b: nat)
    requires m >= 1
    ensures Rev(2 * m, b) == (if b % 2 == 1 then m else 0) + Rev(m, b / 2)
  {
    assert 2 * m / 2 == m;
  }

  lemma RevOfOne(b: nat)
    ensures Rev(1, b) == 0
  {
  }

  lemma DivModTwo(b: nat, h: nat)
    requires h >= 1 && b < 4 * h
    ensures (b / 2) % h == (b % (2 * h)) / 2
    ensures (b / 2) / h == b / (2 * h)
    ensures (b % (2 * h)) % 2 == b % 2
  {
    if b < 2 * h {
      Quotient(b, 2 * h, 0, b);
      Quotient(b / 2, h, 0, b / 2);
    } else {
      Quotient(b, 2 * h, 1, b - 2 * h);
      Quotient(b / 2, h, 1, b / 2 - h);
    }
  }

  /** Bit reversal is its own inverse. */
  lemma {:induction false} RevInvolution(n: nat, b: nat)
    requires PowerOfTwo(n) && b < n
    ensures Rev(n, b) < n && Rev(n, Rev(n, b)) == b
  {
    RevBelow(n, b);
    if n > 1 {
      var m := n / 2;
      var r := Rev(m, b / 2);
      RevBelow(m, b / 2);
      RevFromHighBit(m, Rev(n, b));
      if b % 2 == 1 {
        Quotient(m + r, m, 1, r);
      } else {
        Quotient(r, m, 0, r);
      }
      RevInvolution(m, b / 2);
    }
  }

  // ---------------------------------------------------------------- building the table

  lemma {:induction false} ShrOfPow2(e: nat, k: nat)
    requires k <= e
    ensures Shr(Pow2(e), k) == Pow2(e - k)
  {
    if k > 0 {
      assert Pow2(e) / 2 == Pow2(e - 1);
      ShrOfPow2(e - 1, k - 1);
    }
  }

  /** One step of the inner loop: bit b of i becomes bit e-1-b of the entry. */
  lemma TableStep(e: nat, b: nat, i: nat, r: nat)
    requires b < e && LowBitsClear(r, e - b)
    ensures var s := if Bit(i, b) == 1 then BitOr(r, Shr(Pow2(e), b + 1)) else r;
      && LowBitsClear(s, e - (b + 1))
      && s + Rev(Pow2(e - (b + 1)), Shr(i, b + 1)) == r + Rev(Pow2(e - b), Shr(i, b))
  {
    ShrOfPow2(e, b + 1);
    ShrStep(i, b);
    OrIsAdd(r, e - b - 1);
  }

  /** The bit_rev table that the program builds: entry i is the reversal of i. */
  method BuildTable(rev: array<nat>)
    requires PowerOfTwo(rev.Length)
    modifies rev
    ensures forall i :: 0 <= i < rev.Length ==> rev[i] == Rev(rev.Length, i)
  {
    var n := rev.Length;
    ghost var e := Log2(n);
    for i := 0 to n
      invariant forall k :: 0 <= k < i ==> rev[k] == Rev(n, k)
    {
      rev[i] := 0;
      ClearZero(e);
      var b := 0;
      while Pow2(b) < n
        invariant 0 <= b <= e
        invariant LowBitsClear(rev[i], e - b)
        invariant rev[i] + Rev(Pow2(e - b), Shr(i, b)) == Rev(n, i)
        invariant forall k :: 0 <= k < i ==> rev[k] == Rev(n, k)
        decreases e - b
      {
        Pow2Monotone(b, e);
        TableStep(e, b, i, rev[i]);
        if Bit(i, b) == 1 {
          rev[i] := BitOr(rev[i], Shr(n, b + 1));
        }
        b := b + 1;
      }
      Pow2Monotone(b, e);
    }
  }

}
