/** Shifts and bitwise operations on unsigned integers. */
module Bits {
  import opened Arithmetic

  /** An unsigned 64-bit integer. */
  type Word = x: nat | x < 0x1_0000_0000_0000_0000

  function Pow2(k: nat): (p: nat)
    ensures p >= 1
  {
    if k == 0 then 1 else 2 * Pow2(k - 1)
  }

  /** x >> k. */
  function Shr(x: nat, k: nat): nat {
    if k == 0 then x else Shr(x / 2, k - 1)
  }

  /** Bit k of x, the test x & (1 << k). */
  function Bit(x: nat, k: nat): nat {
    if k == 0 then x % 2 else Bit(x / 2, k - 1)
  }

  /** x | y. */
  function BitOr(x: nat, y: nat): nat {
    if x == 0 then y
    else if y == 0 then x
    else 2 * BitOr(x / 2, y / 2) + if x % 2 == 1 || y % 2 == 1 then 1 else 0
  }

  /** x & y. */
  function BitAnd(x: nat, y: nat): nat {
    if x == 0 || y == 0 then 0
    else 2 * BitAnd(x / 2, y / 2) + if x % 2 == 1 && y % 2 == 1 then 1 else 0
  }

  /** x ^ y. */
  function BitXor(x: nat, y: nat): nat {
    if x == 0 then y
    else if y == 0 then x
    else 2 * BitXor(x / 2, y / 2) + if x % 2 == y % 2 then 0 else 1
  }

  lemma {:induction false} XorHalves(x: nat, y: nat)
    ensures BitXor(x, y) / 2 == BitXor(x / 2, y / 2)
    ensures BitXor(x, y) % 2 == if x % 2 == y % 2 then 0 else 1
  {
  }

  /** A bit of the exclusive or is 1 when the two bits differ. */
  lemma {:induction false} XorBit(x: nat, y: nat, k: nat)
    ensures Bit(BitXor(x, y), k) == if Bit(x, k) == Bit(y, k) then 0 else 1
  {
    hide BitXor;
    XorHalves(x, y);
    if k > 0 {
      XorBit(x / 2, y / 2, k - 1);
    }
  }

  lemma {:induction false} XorBelow(x: nat, y: nat, k: nat)
    requires x < Pow2(k) && y < Pow2(k)
    ensures BitXor(x, y) < Pow2(k)
  {
    if x != 0 && y != 0 {
      XorBelow(x / 2, y / 2, k - 1);
    }
  }

  /** Exclusive or with the same word twice changes nothing. */
  lemma {:induction false} XorTwice(x: nat, y: nat)
    ensures BitXor(BitXor(x, y), y) == x
    decreases x + y
  {
    if x + y > 0 {
      XorHalves(x, y);
      XorHalves(BitXor(x, y), y);
      XorTwice(x / 2, y / 2);
      hide BitXor;
      var z := BitXor(BitXor(x, y), y);
      assert z == 2 * (z / 2) + z % 2 && x == 2 * (x / 2) + x % 2;
    }
  }

  lemma {:induction false} ShrXor(x: nat, y: nat, k: nat)
    ensures Shr(BitXor(x, y), k) == BitXor(Shr(x, k), Shr(y, k))
  {
    hide BitXor;
    if k > 0 {
      XorHalves(x, y);
      ShrXor(x / 2, y / 2, k - 1);
    }
  }

  lemma {:induction false} ShrShrinks(x: nat, k: nat)
    ensures Shr(x, k) <= x
    ensures k > 0 && x > 0 ==> Shr(x, k) < x
  {
    if k > 0 {
      ShrShrinks(x / 2, k - 1);
    }
  }

  /** A word can be recovered from its exclusive or with its own upper part. */
  lemma {:induction false} FoldInjective(x: nat, y: nat, s: nat)
    requires s >= 1 && BitXor(x, Shr(x, s)) == BitXor(y, Shr(y, s))
    ensures x == y
    decreases x + y
  {
    hide BitXor, Shr;
    if x + y > 0 {
      ShrXor(x, Shr(x, s), s);
      ShrXor(y, Shr(y, s), s);
      ShrShrinks(x, s);
      ShrShrinks(y, s);
      FoldInjective(Shr(x, s), Shr(y, s), s);
      XorTwice(x, Shr(x, s));
      XorTwice(y, Shr(y, s));
    }
  }

  const WORDS: nat := 0x1_0000_0000_0000_0000

  lemma {:induction false} Pow2Add(a: nat, b: nat)
    ensures Pow2(a + b) == Pow2(a) * Pow2(b)
  {
    if a > 0 {
      Pow2Add(a - 1, b);
      var p, q := Pow2(a - 1), Pow2(b);
      assert Pow2(a) == 2 * p && Pow2(a + b) == 2 * (p * q);
    }
  }

  lemma Pow2Doubled(k: nat, p: nat, q: nat)
    requires Pow2(k) == p && q == p * p
    ensures Pow2(2 * k) == q
  {
    hide Pow2;
    Pow2Add(k, k);
  }

  lemma WordsIsPow2()
    ensures Pow2(64) == WORDS
  {
    assert Pow2(4) == 16;
    Pow2Doubled(4, 16, 256);
    Pow2Doubled(8, 256, 0x1_0000);
    Pow2Doubled(16, 0x1_0000, 0x1_0000_0000);
    Pow2Doubled(32, 0x1_0000_0000, WORDS);
  }

  /** Multiplying by a number that has an inverse modulo 2^64 loses nothing. */
  lemma UnitFactor(x: nat, y: nat, c: nat, o: nat, inv: nat, q: nat)
    requires y <= x < WORDS && c * inv == q * WORDS + 1
    requires (x * c + o) % WORDS == (y * c + o) % WORDS
    ensures x == y
  {
    var d := x - y;
    var a, b := (x * c + o) / WORDS, (y * c + o) / WORDS;
    assert x * c + o == a * WORDS + (x * c + o) % WORDS;
    assert y * c + o == b * WORDS + (y * c + o) % WORDS;
    assert d * c == (a - b) * WORDS by {
      assert d * c == x * c - y * c;
    }
    assert d * (c * inv) == ((a - b) * WORDS) * inv == ((a - b) * inv) * WORDS;
    assert d * (c * inv) == d * (q * WORDS + 1) == (d * q) * WORDS + d;
    var m := (a - b) * inv - d * q;
    assert d == m * WORDS;
  }

  /** Masking with a power of two less one is the remainder, as in the wrap of the hash table and
      the digits of the radix sort. */
  lemma {:induction false} MaskIsRemainder(x: nat, k: nat)
    ensures BitAnd(x, Pow2(k) - 1) == x % Pow2(k)
  {
    hide BitAnd;
    if k == 0 {
      AndZero(x);
    } else {
      var m := Pow2(k - 1);
      HalveRemainder(x, m);
      if x == 0 {
        AndZero(2 * m - 1);
        Quotient(0, 2 * m, 0, 0);
      } else {
        MaskIsRemainder(x / 2, k - 1);
        AndOdd(x, m - 1);
      }
    }
  }

  lemma AndZero(x: nat)
    ensures BitAnd(x, 0) == 0 == BitAnd(0, x)
  {
  }

  lemma AndOdd(x: nat, y: nat)
    requires x != 0
    ensures BitAnd(x, 2 * y + 1) == 2 * BitAnd(x / 2, y) + x % 2
  {
    assert (2 * y + 1) / 2 == y && (2 * y + 1) % 2 == 1;
  }

  lemma HalveRemainder(x: nat, m: nat)
    requires m >= 1
    ensures x % (2 * m) == 2 * (x / 2 % m) + x % 2
  {
    var q, r := x / 2 / m, x / 2 % m;
    assert x / 2 == q * m + r;
    assert q * (2 * m) == 2 * (q * m);
    Quotient(x, 2 * m, q, 2 * r + x % 2);
  }

  lemma {:induction false} ShrStep(x: nat, k: nat)
    ensures Shr(x, k + 1) == Shr(x, k) / 2 && Bit(x, k) == Shr(x, k) % 2
  {
    if k > 0 {
      ShrStep(x / 2, k - 1);
    }
  }

  lemma {:induction false} Pow2Monotone(a: nat, b: nat)
    ensures Pow2(a) < Pow2(b) <==> a < b
  {
    if a > 0 && b > 0 {
      Pow2Monotone(a - 1, b - 1);
    }
  }

  predicate LowBitsClear(x: nat, t: nat) {
    t == 0 || (x % 2 == 0 && LowBitsClear(x / 2, t - 1))
  }

  /** Setting a bit below which all bits, and which itself, are clear is an addition. */
  lemma {:induction false} OrIsAdd(x: nat, t: nat)
    requires LowBitsClear(x, t + 1)
    ensures BitOr(x, Pow2(t)) == x + Pow2(t) && LowBitsClear(x + Pow2(t), t) && LowBitsClear(x, t)
  {
    if t > 0 {
      OrIsAdd(x / 2, t - 1);
      assert (x + Pow2(t)) / 2 == x / 2 + Pow2(t - 1);
    } else {
      assert x / 2 * 2 == x;
    }
  }

  lemma {:induction false} ClearZero(t: nat)
    ensures LowBitsClear(0, t)
  {
    if t > 0 {
      ClearZero(t - 1);
    }
  }
}
