/** The open-addressing table with linear probing. Key 0 marks an empty slot, and a deletion
    leaves such a slot behind without a tombstone. */
module HashTable {
  import opened Arithmetic
  import opened Bits

  /** An unsigned 64-bit result, wrapped around. */
  function Wrap(x: nat): Word {
    x % WORDS
  }

  /** x << s, without the bits that leave the word. */
  function Shl(x: Word, s: nat): Word {
    Wrap(x * Pow2(s))
  }

  /** x ^ (x >> s). */
  function Fold(x: Word, s: nat): Word {
    WordsIsPow2();
    ShrShrinks(x, s);
    XorBelow(x, Shr(x, s), 64);
    BitXor(x, Shr(x, s))
  }

  /** The four lines of the mix that add; the complement of a word is what it lacks to the
      greatest word. */
  function MixFirst(x: Word): Word {
    Wrap((WORDS - 1 - x) + Shl(x, 21))
  }

  function MixSecond(x: Word): Word {
    Wrap(Wrap(x + Shl(x, 3)) + Shl(x, 8))
  }

  function MixThird(x: Word): Word {
    Wrap(Wrap(x + Shl(x, 2)) + Shl(x, 4))
  }

  function MixFourth(x: Word): Word {
    Wrap(x + Shl(x, 31))
  }

  /** The bit mix of the program, on wrapping 64-bit words. */
  function HashFunc(key: Word): nat {
    MixFourth(Fold(MixThird(Fold(MixSecond(Fold(MixFirst(key), 24)), 14)), 28))
  }

  lemma WrapSum(a: nat, b: nat)
    ensures Wrap(a + Wrap(b)) == Wrap(a + b) == Wrap(Wrap(a) + b)
  {
    var p, q := a / WORDS, b / WORDS;
    WrapPlus(a + b % WORDS, q);
    WrapPlus(a % WORDS + b, p);
  }

  lemma WrapPlus(a: nat, q: nat)
    ensures Wrap(a + q * WORDS) == Wrap(a)
  {
    Quotient(a + q * WORDS, WORDS, a / WORDS + q, a % WORDS);
  }

  /** The shifts and additions are multiplications by odd constants modulo 2^64. */
  lemma MixIsModular(x: Word)
    ensures MixFirst(x) == (x * 0x1F_FFFF + 0xFFFF_FFFF_FFFF_FFFF) % 0x1_0000_0000_0000_0000
    ensures MixSecond(x) == x * 265 % 0x1_0000_0000_0000_0000
    ensures MixThird(x) == x * 21 % 0x1_0000_0000_0000_0000
    ensures MixFourth(x) == x * 0x8000_0001 % 0x1_0000_0000_0000_0000
  {
    SmallPowers();
    hide Pow2;
    OneShift(WORDS - 1 - x, x, 21, 0x20_0000);
    TwoShifts(x, 3, 8, 8, 256);
    TwoShifts(x, 2, 4, 4, 16);
    OneShift(x, x, 31, 0x8000_0000);
  }

  lemma OneShift(y: Word, x: Word, s: nat, p: nat)
    requires Pow2(s) == p
    ensures Wrap(y + Shl(x, s)) == Wrap(y + x * p)
  {
    hide Pow2, Shl, Wrap;
    ShlIs(x, s, p);
    WrapSum(y, x * p);
  }

  lemma TwoShifts(x: Word, s: nat, p: nat, t: nat, q: nat)
    requires Pow2(s) == p && Pow2(t) == q
    ensures Wrap(Wrap(x + Shl(x, s)) + Shl(x, t)) == Wrap(x + x * p + x * q)
  {
    hide Pow2, Shl, Wrap;
    ShlIs(x, s, p);
    ShlIs(x, t, q);
    WrapTwice(x, x * p, x * q);
  }

  /** The whole mix, line by line. */
  lemma HashIsModular(key: Word)
    ensures var m := 0x1_0000_0000_0000_0000;
      var a := (key * 0x1F_FFFF + (m - 1)) % m;
      var b := BitXor(a, Shr(a, 24));
      var c := b * 265 % m;
      var d := BitXor(c, Shr(c, 14));
      var e := d * 21 % m;
      var f := BitXor(e, Shr(e, 28));
      HashFunc(key) == f * 0x8000_0001 % m
  {
    hide MixFirst, MixSecond, MixThird, MixFourth, BitXor, Shr;
    var a := MixFirst(key);
    var b := Fold(a, 24);
    var d := Fold(MixSecond(b), 14);
    var f := Fold(MixThird(d), 28);
    MixIsModular(key);
    MixIsModular(b);
    MixIsModular(d);
    MixIsModular(f);
  }

  lemma ShlIs(x: Word, s: nat, p: nat)
    requires Pow2(s) == p
    ensures Shl(x, s) == Wrap(x * p)
  {
  }

  lemma WrapTwice(a: nat, b: nat, c: nat)
    ensures Wrap(Wrap(a + Wrap(b)) + Wrap(c)) == Wrap(a + b + c)
  {
    WrapSum(a, b);
    WrapSum(a + b, Wrap(c));
    WrapSum(a + b, c);
  }

  lemma SmallPowers()
    ensures Pow2(2) == 4 && Pow2(3) == 8 && Pow2(4) == 16 && Pow2(8) == 256
    ensures Pow2(21) == 0x20_0000 && Pow2(31) == 0x8000_0000
  {
    assert Pow2(2) == 4 && Pow2(3) == 8 && Pow2(1) == 2;
    hide Pow2;
    Pow2Add(2, 2);
    Pow2Add(4, 4);
    Pow2Add(8, 8);
    Pow2Add(16, 4);
    Pow2Add(20, 1);
    Pow2Add(8, 2);
    Pow2Add(10, 20);
    Pow2Add(30, 1);
  }

  lemma MixesInjective(x: Word, y: Word)
    requires y <= x
    ensures MixFirst(x) == MixFirst(y) ==> x == y
    ensures MixSecond(x) == MixSecond(y) ==> x == y
    ensures MixThird(x) == MixThird(y) ==> x == y
    ensures MixFourth(x) == MixFourth(y) ==> x == y
  {
    MixIsModular(x);
    MixIsModular(y);
    hide MixFirst, MixSecond, MixThird, MixFourth;
    if MixFirst(x) == MixFirst(y) {
      UnitFactor(x, y, 0x1F_FFFF, WORDS - 1, 0x7FFFFBFFFFDFFFFF, 1048575);
    }
    if MixSecond(x) == MixSecond(y) {
      UnitFactor(x, y, 265, 0, 0xD38FF08B1C03DD39, 219);
    }
    if MixThird(x) == MixThird(y) {
      UnitFactor(x, y, 21, 0, 0xCF3CF3CF3CF3CF3D, 17);
    }
    if MixFourth(x) == MixFourth(y) {
      UnitFactor(x, y, 0x8000_0001, 0, 0x3FFFFFFF80000001, 536870912);
    }
  }

  lemma EitherWay(x: Word, y: Word)
    ensures MixFirst(x) == MixFirst(y) ==> x == y
    ensures MixSecond(x) == MixSecond(y) ==> x == y
    ensures MixThird(x) == MixThird(y) ==> x == y
    ensures MixFourth(x) == MixFourth(y) ==> x == y
  {
    hide MixFirst, MixSecond, MixThird, MixFourth;
    if y <= x {
      MixesInjective(x, y);
    } else {
      MixesInjective(y, x);
    }
  }

  /** The mix loses nothing: different keys have different hashes. */
  lemma HashInjective(x: Word, y: Word)
    ensures HashFunc(x) == HashFunc(y) ==> x == y
  {
    hide MixFirst, MixSecond, MixThird, MixFourth, BitXor, Shr;
    if HashFunc(x) == HashFunc(y) {
      var a, a' := MixFirst(x), MixFirst(y);
      var b, b' := Fold(a, 24), Fold(a', 24);
      var c, c' := MixSecond(b), MixSecond(b');
      var d, d' := Fold(c, 14), Fold(c', 14);
      var e, e' := MixThird(d), MixThird(d');
      EitherWay(Fold(e, 28), Fold(e', 28));
      FoldInjective(e, e', 28);
      EitherWay(d, d');
      FoldInjective(c, c', 14);
      EitherWay(b, b');
      FoldInjective(a, a', 24);
      EitherWay(x, y);
    }
  }

  /** The contents of a table; everything about tables holds for every hash function. */
  datatype Table = Table(hash: Word -> nat, keys: seq<Word>, vals: seq<Word>) {
    predicate Valid() {
      |keys| == |vals| >= 1
    }
  }

  /** The d-th slot that a probe for key visits; the table length of the program is a power of
      two, where masking with the length less one is this remainder. */
  function Slot(hash: Word -> nat, size: nat, key: Word, d: nat): (i: nat)
    requires size >= 1
    ensures i < size
  {
    (hash(key) + d) % size
  }

  predicate Stops(t: Table, key: Word, d: nat)
    requires t.Valid()
  {
    var k := t.keys[Slot(t.hash, |t.keys|, key, d)];
    k == 0 || k == key
  }

  /** The number of probes before the first slot that is empty or holds key, or the table
      length if there is no such slot. */
  function StopFrom(t: Table, key: Word, d: nat): (e: nat)
    requires t.Valid() && d <= |t.keys|
    ensures d <= e <= |t.keys|
    ensures forall x: nat :: d <= x < e ==> !Stops(t, key, x)
    ensures e < |t.keys| ==> Stops(t, key, e)
    decreases |t.keys| - d
  {
    if d == |t.keys| || Stops(t, key, d) then d else StopFrom(t, key, d + 1)
  }

  function Stop(t: Table, key: Word): nat
    requires t.Valid()
  {
    StopFrom(t, key, 0)
  }

  predicate Dropped(t: Table, key: Word)
    requires t.Valid()
  {
    Stop(t, key) == |t.keys|
  }

  function StopSlot(t: Table, key: Word): (i: nat)
    requires t.Valid()
    ensures i < |t.keys|
  {
    Slot(t.hash, |t.keys|, key, Stop(t, key))
  }

  /** A probe for key ends at an entry for it. */
  predicate Present(t: Table, key: Word)
    requires t.Valid()
  {
    !Dropped(t, key) && t.keys[StopSlot(t, key)] == key
  }

  function Store(t: Table, i: nat, key: Word, val: Word): (t': Table)
    requires t.Valid() && i < |t.keys|
    ensures t'.Valid() && |t'.keys| == |t.keys|
  {
    Table(t.hash, t.keys[i := key], t.vals[i := val])
  }

  function Insert(t: Table, key: Word, val: Word): (t': Table)
    requires t.Valid()
    ensures t'.Valid() && |t'.keys| == |t.keys|
  {
    if Dropped(t, key) then t
    else Store(t, StopSlot(t, key), key, val)
  }

  function Lookup(t: Table, key: Word): Word
    requires t.Valid()
  {
    if Present(t, key) then t.vals[StopSlot(t, key)] else 0
  }

  function Delete(t: Table, key: Word): (t': Table)
    requires t.Valid()
    ensures t'.Valid() && |t'.keys| == |t.keys|
  {
    if !Present(t, key) then t
    else Store(t, StopSlot(t, key), 0, 0)
  }

  // ---------------------------------------------------------------- probe sequences

  /** The stop is the only position that ends a probe and has none before it. */
  lemma StopUnique(t: Table, key: Word, d: nat)
    requires t.Valid() && d <= |t.keys|
    requires forall x: nat :: x < d ==> !Stops(t, key, x)
    requires d < |t.keys| ==> Stops(t, key, d)
    ensures Stop(t, key) == d
  {
    hide Slot, Stops;
  }

  lemma HomeSlot(hash: Word -> nat, size: nat, key: Word)
    requires size >= 1
    ensures hash(key) % size == Slot(hash, size, key, 0)
  {
  }

  lemma SlotWraps(hash: Word -> nat, size: nat, key: Word, d: nat)
    requires size >= 1
    ensures Slot(hash, size, key, d + size) == Slot(hash, size, key, d)
    ensures (Slot(hash, size, key, d) + 1) % size == Slot(hash, size, key, d + 1)
  {
    var x := hash(key) + d;
    RingAdvance(x, size, size);
    RingAdvance(x, 1, size);
    RingAdvance(x % size, 1, size);
    Quotient(x % size, size, 0, x % size);
  }

  /** Within one turn a probe visits every slot. */
  lemma ProbesCover(hash: Word -> nat, size: nat, key: Word, i: nat) returns (d: nat)
    requires i < size
    ensures d < size && Slot(hash, size, key, d) == i
  {
    var x := hash(key);
    d := if x % size <= i then i - x % size else i + size - x % size;
    RingAdvance(x, d, size);
  }

  lemma DroppedMeansFull(t: Table, key: Word)
    requires t.Valid() && Dropped(t, key)
    ensures forall i :: 0 <= i < |t.keys| ==> t.keys[i] != 0 && t.keys[i] != key
  {
    forall i | 0 <= i < |t.keys| ensures t.keys[i] != 0 && t.keys[i] != key {
      var d := ProbesCover(t.hash, |t.keys|, key, i);
      assert !Stops(t, key, d);
    }
  }

  // ---------------------------------------------------------------- tables of any history

  /** An entry that a probe finds is still found, in place, after any insertion. */
  lemma InsertKeepsPresent(t: Table, key: Word, val: Word, k: Word)
    requires t.Valid() && k != 0 && Present(t, k)
    ensures var t' := Insert(t, key, val);
      Present(t', k) && StopSlot(t', k) == StopSlot(t, k) && Lookup(t', k) == if k == key then val else Lookup(t, k)
  {
    hide Slot;
    var t', d := Insert(t, key, val), Stop(t, k);
    forall x: nat | x < d ensures !Stops(t', k, x) {
      assert !Stops(t, k, x);
    }
    StopUnique(t', k, d);
  }

  lemma InsertMakesPresent(t: Table, key: Word, val: Word)
    requires t.Valid() && key != 0 && !Dropped(t, key)
    ensures Present(Insert(t, key, val), key) && Lookup(Insert(t, key, val), key) == val
  {
    hide Slot;
    var t', d := Insert(t, key, val), Stop(t, key);
    forall x: nat | x < d ensures !Stops(t', key, x) {
      assert !Stops(t, key, x);
    }
    StopUnique(t', key, d);
  }

  /** Once a lookup of k gives 0, deletions never change that, although they open holes. */
  ghost predicate Gone(t: Table, k: Word)
    requires t.Valid()
  {
    (k != 0 ==> !Present(t, k)) && Lookup(t, k) == 0
  }

  lemma DeleteKeepsGone(t: Table, key: Word, k: Word)
    requires t.Valid() && Gone(t, k)
    ensures Gone(Delete(t, key), k)
  {
    hide Slot;
    var t', d, e := Delete(t, key), Stop(t, k), Stop(Delete(t, key), k);
    assert d < |t.keys| ==> Stops(t', k, d);
    if e < d {
      assert !Stops(t, k, e);
    }
  }

  lemma DeleteMakesGone(t: Table, key: Word)
    requires t.Valid()
    ensures Gone(Delete(t, key), key)
  {
    hide Slot;
    if Present(t, key) {
      var t', d := Delete(t, key), Stop(t, key);
      forall x: nat | x < d ensures !Stops(t', key, x) {
        assert !Stops(t, key, x);
      }
      StopUnique(t', key, d);
    }
  }

  /** What the missing tombstone costs: deleting a leaves b reachable exactly when the entry of
      a is not on the probe path of b; otherwise b reads as absent although it is stored. */
  lemma DeleteHidesExactly(t: Table, a: Word, b: Word)
    requires t.Valid() && a != 0 && b != 0 && a != b && Present(t, a) && Present(t, b)
    ensures var onPath := exists x: nat :: x < Stop(t, b) && Slot(t.hash, |t.keys|, b, x) == StopSlot(t, a);
      && (Present(Delete(t, a), b) <==> !onPath)
      && Lookup(Delete(t, a), b) == (if onPath then 0 else Lookup(t, b))
      && b in Delete(t, a).keys
  {
    hide Slot;
    var t', d, e := Delete(t, a), Stop(t, b), Stop(Delete(t, a), b);
    assert t'.keys[StopSlot(t, b)] == b;
    if x: nat :| x < d && Slot(t.hash, |t.keys|, b, x) == StopSlot(t, a) {
      assert Stops(t', b, x);
      assert !Stops(t, b, e);
    } else {
      forall x: nat | x < d ensures !Stops(t', b, x) {
        assert !Stops(t, b, x);
      }
      StopUnique(t', b, d);
    }
  }

  /** Two keys with the same home slot, inserted one after the other into an empty table: after
      the first is deleted, the second reads as absent although it is still stored. */
  lemma CollisionHides(hash: Word -> nat, size: nat, a: Word, va: Word, b: Word, vb: Word)
    requires size >= 2 && a != 0 && b != 0 && a != b && hash(a) % size == hash(b) % size
    ensures var t := Insert(Insert(EmptyTable(hash, size), a, va), b, vb);
      && Lookup(t, b) == vb && Lookup(Delete(t, a), b) == 0 && b in Delete(t, a).keys
  {
    var t0 := EmptyTable(hash, size);
    var t1 := Insert(t0, a, va);
    var t2 := Insert(t1, b, vb);
    HomeSlot(hash, size, a);
    HomeSlot(hash, size, b);
    var home := Slot(hash, size, a, 0);
    assert Stops(t0, a, 0);
    StopUnique(t0, a, 0);
    assert !Stops(t1, b, 0);
    SlotWraps(hash, size, b, 0);
    assert Slot(hash, size, b, 1) == (home + 1) % size != home by { NextSlotDiffers(home, size); }
    assert Stops(t1, b, 1);
    StopUnique(t1, b, 1);
    hide Slot;
    InsertMakesPresent(t0, a, va);
    InsertMakesPresent(t1, b, vb);
    InsertSlot(t1, b, vb);
    InsertKeepsPresent(t1, b, vb, a);
    assert Stop(t2, b) == 1 by {
      assert !Stops(t2, b, 0) && Stops(t2, b, 1);
      StopUnique(t2, b, 1);
    }
    DeleteHidesExactly(t2, a, b);
  }

  lemma NextSlotDiffers(i: nat, size: nat)
    requires i < size && size >= 2
    ensures (i + 1) % size != i
  {
    RingAdvance(i, 1, size);
    Quotient(i, size, 0, i);
  }

  // ---------------------------------------------------------------- the phases of the benchmark

  /** The table after inserting the first n pairs. */
  function InsertAll(t: Table, ks: seq<Word>, vs: seq<Word>, n: nat): (t': Table)
    requires t.Valid() && n <= |ks| == |vs|
    ensures t'.Valid() && |t'.keys| == |t.keys|
  {
    if n == 0 then t else Insert(InsertAll(t, ks, vs, n - 1), ks[n - 1], vs[n - 1])
  }

  /** The table after deleting the first n keys. */
  function DeleteAll(t: Table, ks: seq<Word>, n: nat): (t': Table)
    requires t.Valid() && n <= |ks|
    ensures t'.Valid() && |t'.keys| == |t.keys|
  {
    if n == 0 then t else Delete(DeleteAll(t, ks, n - 1), ks[n - 1])
  }

  ghost predicate NoneDropped(t: Table, ks: seq<Word>, vs: seq<Word>)
    requires t.Valid() && |ks| == |vs|
  {
    forall i :: 0 <= i < |ks| ==> !Dropped(InsertAll(t, ks, vs, i), ks[i])
  }

  /** The last of the first n positions with the same key as position i. */
  function LastIndex(ks: seq<Word>, n: nat, i: nat): (j: nat)
    requires i < n <= |ks|
    ensures i <= j < n && ks[j] == ks[i]
    ensures forall x :: j < x < n ==> ks[x] != ks[i]
  {
    if ks[n - 1] == ks[i] then n - 1 else LastIndex(ks, n - 1, i)
  }

  /** A dropped key finds a table without empty slots, and no insertion ever changes its keys. */
  lemma DroppedStays(t: Table, key: Word, val: Word, k: Word)
    requires t.Valid() && Dropped(t, k)
    ensures Dropped(Insert(t, key, val), k)
  {
    hide Slot;
    DroppedMeansFull(t, k);
    var t' := Insert(t, key, val);
    assert t'.keys == t.keys;
    forall x: nat | x < |t.keys| ensures !Stops(t', k, x) {
      assert !Stops(t, k, x);
    }
    StopUnique(t', k, |t.keys|);
  }

  lemma {:induction false} DroppedForGood(t: Table, ks: seq<Word>, vs: seq<Word>, i: nat, n: nat)
    requires t.Valid() && i <= n <= |ks| == |vs| && i < |ks| && Dropped(InsertAll(t, ks, vs, i), ks[i])
    ensures Dropped(InsertAll(t, ks, vs, n), ks[i])
  {
    hide Dropped, Insert;
    if i < n {
      DroppedForGood(t, ks, vs, i, n - 1);
      DroppedStays(InsertAll(t, ks, vs, n - 1), ks[n - 1], vs[n - 1], ks[i]);
    }
  }

  /** From any table, stale entries included: a key whose insertion was not dropped is found
      with the value of its last insertion, whatever else was inserted. */
  lemma {:induction false} InsertPhase(t: Table, ks: seq<Word>, vs: seq<Word>, n: nat, i: nat)
    requires t.Valid() && i < n <= |ks| == |vs| && ks[i] != 0
    requires !Dropped(InsertAll(t, ks, vs, i), ks[i])
    ensures Present(InsertAll(t, ks, vs, n), ks[i])
    ensures Lookup(InsertAll(t, ks, vs, n), ks[i]) == vs[LastIndex(ks, n, i)]
  {
    hide Lookup, Present, Dropped, Insert;
    var before := InsertAll(t, ks, vs, n - 1);
    if i == n - 1 {
      InsertMakesPresent(before, ks[i], vs[i]);
    } else {
      InsertPhase(t, ks, vs, n - 1, i);
      InsertKeepsPresent(before, ks[n - 1], vs[n - 1], ks[i]);
    }
  }

  /** What the lookups after the insertions give, key by key. */
  function Collected(t: Table, ks: seq<Word>, vs: seq<Word>): (r: seq<Word>)
    requires t.Valid() && |ks| == |vs|
    ensures |r| == |ks|
  {
    seq(|ks|, i requires 0 <= i < |ks| => Lookup(InsertAll(t, ks, vs, |ks|), ks[i]))
  }

  /** From any table and for any lists: a non-zero key reads as the value of its last insertion,
      or as 0 if its insertion was dropped. */
  lemma CollectedValue(t: Table, ks: seq<Word>, vs: seq<Word>, i: nat)
    requires t.Valid() && i < |ks| == |vs| && ks[i] != 0
    ensures Collected(t, ks, vs)[i]
         == if Dropped(InsertAll(t, ks, vs, i), ks[i]) then 0 else vs[LastIndex(ks, |ks|, i)]
  {
    hide InsertAll, Dropped, StopSlot;
    if Dropped(InsertAll(t, ks, vs, i), ks[i]) {
      DroppedForGood(t, ks, vs, i, |ks|);
    } else {
      InsertPhase(t, ks, vs, |ks|, i);
    }
  }

  /** From any table: after deleting every key of the list, a lookup of any of them gives 0. */
  lemma {:induction false} DeletePhase(t: Table, ks: seq<Word>, n: nat, i: nat)
    requires t.Valid() && i < n <= |ks|
    ensures Gone(DeleteAll(t, ks, n), ks[i])
  {
    hide Gone, Delete;
    if i == n - 1 {
      DeleteMakesGone(DeleteAll(t, ks, n - 1), ks[i]);
    } else {
      DeletePhase(t, ks, n - 1, i);
      DeleteKeepsGone(DeleteAll(t, ks, n - 1), ks[n - 1], ks[i]);
    }
  }

  function Zeros(ks: seq<Word>): nat {
    if ks == [] then 0 else (if ks[0] == 0 then 1 else 0) + Zeros(ks[1..])
  }

  lemma {:induction false} ZerosUpdate(ks: seq<Word>, i: nat, k: Word)
    requires i < |ks|
    ensures Zeros(ks[i := k]) + 1 >= Zeros(ks)
    ensures ks[i] == 0 ==> Zeros(ks) > 0
  {
    if i == 0 {
      assert ks[i := k][1..] == ks[1..];
    } else {
      ZerosUpdate(ks[1..], i - 1, k);
      assert ks[i := k][1..] == ks[1..][i - 1 := k];
    }
  }

  lemma {:induction false} NoZeros(ks: seq<Word>)
    requires forall i :: 0 <= i < |ks| ==> ks[i] != 0
    ensures Zeros(ks) == 0
  {
    if ks != [] {
      NoZeros(ks[1..]);
    }
  }

  lemma {:induction false} ZerosLeft(t: Table, ks: seq<Word>, vs: seq<Word>, n: nat)
    requires t.Valid() && n <= |ks| == |vs|
    ensures Zeros(InsertAll(t, ks, vs, n).keys) + n >= Zeros(t.keys)
  {
    hide Zeros, Insert;
    if n > 0 {
      ZerosLeft(t, ks, vs, n - 1);
      InsertUsesOneZero(InsertAll(t, ks, vs, n - 1), ks[n - 1], vs[n - 1]);
    }
  }

  /** A caller who has at least as many empty slots as insertions loses none. */
  lemma RoomSuffices(t: Table, ks: seq<Word>, vs: seq<Word>)
    requires t.Valid() && |ks| == |vs| && Zeros(t.keys) >= |ks|
    ensures NoneDropped(t, ks, vs)
  {
    hide Zeros, Insert, Dropped, InsertAll;
    forall i | 0 <= i < |ks| ensures !Dropped(InsertAll(t, ks, vs, i), ks[i]) {
      ZerosLeft(t, ks, vs, i);
      InsertUsesOneZero(InsertAll(t, ks, vs, i), ks[i], vs[i]);
    }
  }

  lemma InsertUsesOneZero(t: Table, key: Word, val: Word)
    requires t.Valid()
    ensures Zeros(Insert(t, key, val).keys) + 1 >= Zeros(t.keys)
    ensures Zeros(t.keys) > 0 ==> !Dropped(t, key)
  {
    hide Slot;
    if Dropped(t, key) {
      DroppedMeansFull(t, key);
      NoZeros(t.keys);
    } else {
      ZerosUpdate(t.keys, StopSlot(t, key), key);
    }
  }

  // ---------------------------------------------------------------- insert-only histories

  /** No hole between a key's home and its entry, and no key twice: the probe for the key in
      any occupied slot ends at that slot. */
  ghost predicate ChainsIntact(t: Table)
    requires t.Valid()
  {
    forall i :: 0 <= i < |t.keys| && t.keys[i] != 0 ==> !Dropped(t, t.keys[i]) && StopSlot(t, t.keys[i]) == i
  }

  lemma InsertKeepsChains(t: Table, key: Word, val: Word)
    requires t.Valid() && ChainsIntact(t) && key != 0
    ensures ChainsIntact(Insert(t, key, val))
  {
    hide Slot;
    var t' := Insert(t, key, val);
    forall i | 0 <= i < |t'.keys| && t'.keys[i] != 0
      ensures !Dropped(t', t'.keys[i]) && StopSlot(t', t'.keys[i]) == i
    {
      if Dropped(t, key) {
      } else if t'.keys[i] == key {
        InsertMakesPresent(t, key, val);
        InsertSlot(t, key, val);
      } else {
        InsertKeepsPresent(t, key, val, t.keys[i]);
      }
    }
  }

  lemma InsertSlot(t: Table, key: Word, val: Word)
    requires t.Valid() && key != 0 && !Dropped(t, key)
    ensures StopSlot(Insert(t, key, val), key) == StopSlot(t, key)
  {
    hide Slot;
    var t', d := Insert(t, key, val), Stop(t, key);
    forall x: nat | x < d ensures !Stops(t', key, x) {
      assert !Stops(t, key, x);
    }
    StopUnique(t', key, d);
  }

  /** What a finite map of bounded size does with an insertion. */
  function MapInsert(m: map<Word, Word>, size: nat, key: Word, val: Word): map<Word, Word> {
    if key in m || |m| < size then m[key := val] else m
  }

  function MapInsertAll(size: nat, ks: seq<Word>, vs: seq<Word>, n: nat): map<Word, Word>
    requires n <= |ks| == |vs|
  {
    if n == 0 then map[] else MapInsert(MapInsertAll(size, ks, vs, n - 1), size, ks[n - 1], vs[n - 1])
  }

  /** The table holds exactly the entries of m. */
  ghost predicate Represents(t: Table, m: map<Word, Word>)
    requires t.Valid()
  {
    && ChainsIntact(t)
    && (forall i :: 0 <= i < |t.keys| && t.keys[i] != 0 ==> t.keys[i] in m && t.vals[i] == m[t.keys[i]])
    && (forall k :: k in m ==> k != 0 && k in t.keys)
  }

  /** A chain-intact table answers every lookup of a non-zero key like the map. */
  lemma LookupAgrees(t: Table, m: map<Word, Word>, k: Word)
    requires t.Valid() && Represents(t, m) && k != 0
    ensures Lookup(t, k) == if k in m then m[k] else 0
    ensures Present(t, k) <==> k in m
  {
    hide Slot;
    if k in m {
      var i :| 0 <= i < |t.keys| && t.keys[i] == k;
    }
  }

  ghost predicate Distinct(ks: seq<Word>) {
    forall i, j :: 0 <= i < j < |ks| && ks[i] != 0 ==> ks[i] != ks[j]
  }

  function Occupants(ks: seq<Word>): set<Word> {
    set k | k in ks && k != 0
  }

  lemma OccupantsOfRest(ks: seq<Word>)
    requires ks != [] && Distinct(ks)
    ensures Occupants(ks) == Occupants(ks[1..]) + if ks[0] == 0 then {} else {ks[0]}
    ensures Distinct(ks[1..]) && (ks[0] != 0 ==> ks[0] !in Occupants(ks[1..]))
  {
    assert ks == [ks[0]] + ks[1..];
  }

  lemma {:induction false} CountOccupants(ks: seq<Word>)
    requires Distinct(ks)
    ensures |Occupants(ks)| + Zeros(ks) == |ks|
  {
    hide Distinct, Occupants;
    if ks == [] {
      NoOccupants();
    } else {
      OccupantsOfRest(ks);
      CountOccupants(ks[1..]);
    }
  }

  lemma NoOccupants()
    ensures |Occupants([])| == 0
  {
    assert Occupants([]) == {};
  }

  lemma {:induction false} ZerosNone(ks: seq<Word>)
    ensures Zeros(ks) == 0 <==> 0 !in ks
  {
    if ks != [] {
      ZerosNone(ks[1..]);
      assert ks == [ks[0]] + ks[1..];
    }
  }

  /** The distinct non-zero keys fill the table exactly when no slot is empty. */
  lemma FullExactly(t: Table, m: map<Word, Word>)
    requires t.Valid() && Represents(t, m)
    ensures |m| < |t.keys| <==> 0 in t.keys
  {
    hide Slot, Dropped, StopSlot;
    CountOccupants(t.keys);
    ZerosNone(t.keys);
    assert m.Keys == Occupants(t.keys);
  }

  lemma InsertRefines(t: Table, m: map<Word, Word>, key: Word, val: Word)
    requires t.Valid() && Represents(t, m) && key != 0
    ensures Represents(Insert(t, key, val), MapInsert(m, |t.keys|, key, val))
  {
    hide Slot;
    InsertKeepsChains(t, key, val);
    LookupAgrees(t, m, key);
    FullExactly(t, m);
    if Dropped(t, key) {
      DroppedMeansFull(t, key);
    } else {
      var s, t' := StopSlot(t, key), Insert(t, key, val);
      forall k | k in m ensures k in t'.keys {
        var i :| 0 <= i < |t.keys| && t.keys[i] == k;
        assert t'.keys[if i == s then s else i] == k;
      }
      assert t'.keys[s] == key;
      assert key in m || t.keys[s] == 0;
      assert t.keys[s] == 0 ==> 0 in t.keys;
      assert MapInsert(m, |t.keys|, key, val) == m[key := val];
      InsertTouchesOneSlot(t, key, val);
      InsertEntries(t, m, key, val);
    }
  }

  lemma InsertEntries(t: Table, m: map<Word, Word>, key: Word, val: Word)
    requires t.Valid() && Represents(t, m) && key != 0 && !Dropped(t, key)
    ensures var t', m' := Insert(t, key, val), m[key := val];
      forall i :: 0 <= i < |t'.keys| && t'.keys[i] != 0 ==> t'.keys[i] in m' && t'.vals[i] == m'[t'.keys[i]]
  {
    hide Slot, Stop, StopSlot, Dropped;
    var t', m', s := Insert(t, key, val), m[key := val], StopSlot(t, key);
    InsertTouchesOneSlot(t, key, val);
    forall i | 0 <= i < |t'.keys| && t'.keys[i] != 0
      ensures t'.keys[i] in m' && t'.vals[i] == m'[t'.keys[i]]
    {
      if i != s {
        assert t'.keys[i] == t.keys[i] && t'.vals[i] == t.vals[i];
        assert t.keys[i] in m && StopSlot(t, t.keys[i]) == i;
        assert t.keys[i] != key;
      }
    }
  }

  lemma InsertTouchesOneSlot(t: Table, key: Word, val: Word)
    requires t.Valid() && !Dropped(t, key)
    ensures forall i :: 0 <= i < |t.keys| && i != StopSlot(t, key) ==>
      Insert(t, key, val).keys[i] == t.keys[i] && Insert(t, key, val).vals[i] == t.vals[i]
  {
  }

  /** From an empty table, every sequence of insertions of non-zero keys refines a finite map. */
  lemma {:induction false} InsertOnlyRefinesMap(hash: Word -> nat, size: nat, ks: seq<Word>, vs: seq<Word>, n: nat)
    requires size >= 1 && n <= |ks| == |vs|
    requires forall j :: 0 <= j < n ==> ks[j] != 0
    ensures Represents(InsertAll(EmptyTable(hash, size), ks, vs, n), MapInsertAll(size, ks, vs, n))
  {
    hide Represents, Insert;
    if n == 0 {
      EmptyRepresents(hash, size);
    } else {
      InsertOnlyRefinesMap(hash, size, ks, vs, n - 1);
      var t, m := InsertAll(EmptyTable(hash, size), ks, vs, n - 1), MapInsertAll(size, ks, vs, n - 1);
      InsertRefines(t, m, ks[n - 1], vs[n - 1]);
    }
  }

  lemma EmptyRepresents(hash: Word -> nat, size: nat)
    requires size >= 1
    ensures Represents(EmptyTable(hash, size), map[])
  {
  }

  /** The table that calloc returns. */
  function EmptyTable(hash: Word -> nat, size: nat): (t: Table)
    requires size >= 1
    ensures t.Valid() && |t.keys| == size
  {
    Table(hash, seq(size, _ => 0), seq(size, _ => 0))
  }

  // ---------------------------------------------------------------- the program's arrays

  class HashState {
    const keys: array<Word>
    const values: array<Word>
    const tableKeys: array<Word>
    const tableVals: array<Word>

    ghost predicate Valid()
      reads this
    {
      && tableKeys.Length == tableVals.Length >= 1 && keys.Length == values.Length
      && tableKeys != tableVals && tableKeys != keys && tableKeys != values
      && tableVals != keys && tableVals != values
    }

    ghost function Contents(): (t: Table)
      requires Valid()
      reads this, tableKeys, tableVals
      ensures t.Valid() && |t.keys| == tableKeys.Length
    {
      Table(HashFunc, tableKeys[..], tableVals[..])
    }

    constructor (size: nat, ks: seq<Word>, vs: seq<Word>)
      requires size >= 1 && |ks| == |vs|
      ensures Valid() && Contents() == EmptyTable(HashFunc, size) && keys[..] == ks && values[..] == vs
      ensures fresh(tableKeys) && fresh(tableVals)
    {
      keys := new Word[|ks|](i requires 0 <= i < |ks| => ks[i]);
      values := new Word[|vs|](i requires 0 <= i < |vs| => vs[i]);
      tableKeys := new Word[size](_ => 0);
      tableVals := new Word[size](_ => 0);
    }

    /** hash_insert. The loop may go around the table twice before it gives up. */
    method HashInsert(key: Word, val: Word)
      requires Valid()
      modifies tableKeys, tableVals
      ensures Contents() == Insert(old(Contents()), key, val)
    {
      hide Slot, HashFunc;
      ghost var t := Contents();
      var size := tableKeys.Length;
      var h, probes := HashFunc(key) % size, 0;
      HomeSlot(HashFunc, size, key);
      while tableKeys[h] != 0 && tableKeys[h] != key && probes < 2 * size
        invariant Contents() == t
        invariant h == Slot(HashFunc, size, key, probes) && probes <= 2 * size
        invariant forall x: nat :: x < probes && x < size ==> !Stops(t, key, x)
        decreases 2 * size - probes
      {
        SlotWraps(HashFunc, size, key, probes);
        h, probes := (h + 1) % size, probes + 1;
      }
      if probes < size {
        StopUnique(t, key, probes);
      } else {
        StopUnique(t, key, size);
        DroppedMeansFull(t, key);
      }
      if probes < 2 * size {
        tableKeys[h] := key;
        tableVals[h] := val;
      }
    }

    method HashLookup(key: Word) returns (v: Word)
      requires Valid()
      ensures v == Lookup(Contents(), key)
    {
      hide Slot, HashFunc;
      ghost var t := Contents();
      var size := tableKeys.Length;
      var h, probes := HashFunc(key) % size, 0;
      HomeSlot(HashFunc, size, key);
      while tableKeys[h] != key && probes < size
        invariant Contents() == t
        invariant h == Slot(HashFunc, size, key, probes) && probes <= size
        invariant forall x: nat :: x < probes ==> !Stops(t, key, x)
        decreases size - probes
      {
        if tableKeys[h] == 0 {
          StopUnique(t, key, probes);
          return 0;
        }
        SlotWraps(HashFunc, size, key, probes);
        h, probes := (h + 1) % size, probes + 1;
      }
      StopUnique(t, key, probes);
      return if probes < size then tableVals[h] else 0;
    }

    method HashDelete(key: Word)
      requires Valid()
      modifies tableKeys, tableVals
      ensures Contents() == Delete(old(Contents()), key)
    {
      hide Slot, HashFunc;
      ghost var t := Contents();
      var size := tableKeys.Length;
      var h, probes := HashFunc(key) % size, 0;
      HomeSlot(HashFunc, size, key);
      while tableKeys[h] != key && probes < size
        invariant Contents() == t
        invariant h == Slot(HashFunc, size, key, probes) && probes <= size
        invariant forall x: nat :: x < probes ==> !Stops(t, key, x)
        decreases size - probes
      {
        if tableKeys[h] == 0 {
          StopUnique(t, key, probes);
          return;
        }
        SlotWraps(HashFunc, size, key, probes);
        h, probes := (h + 1) % size, probes + 1;
      }
      StopUnique(t, key, probes);
      if probes < size {
        tableKeys[h] := 0;
        tableVals[h] := 0;
      }
    }

    method InsertPhaseLoop()
      requires Valid()
      modifies tableKeys, tableVals
      ensures Contents() == InsertAll(old(Contents()), keys[..], values[..], keys.Length)
    {
      hide Insert, Slot;
      for i := 0 to keys.Length
        invariant Contents() == InsertAll(old(Contents()), keys[..], values[..], i)
      {
        HashInsert(keys[i], values[i]);
      }
    }

    method DeletePhaseLoop()
      requires Valid()
      modifies tableKeys, tableVals
      ensures Contents() == DeleteAll(old(Contents()), keys[..], keys.Length)
    {
      hide Delete, Slot;
      for i := 0 to keys.Length
        invariant Contents() == DeleteAll(old(Contents()), keys[..], i)
      {
        HashDelete(keys[i]);
      }
    }

    /** The values that a pass of lookups over all keys sees. */
    ghost function Readings(): (r: seq<Word>)
      requires Valid()
      reads this, keys, tableKeys, tableVals
    {
      var t := Contents();
      seq(keys.Length, i requires 0 <= i < keys.Length reads this, keys => Lookup(t, keys[i]))
    }

    method LookupPhaseLoop(start: Word) returns (sink: Word)
      requires Valid()
      ensures sink == XorOnto(start, Readings())
    {
      hide Lookup, Slot, HashFunc, XorWord;
      ghost var r := Readings();
      assert r[..0] == [];
      sink := start;
      for i := 0 to keys.Length
        invariant sink == XorOnto(start, r[..i])
      {
        var v := HashLookup(keys[i]);
        assert r[..i + 1][..i] == r[..i];
        sink := XorWord(sink, v);
      }
      assert r[..keys.Length] == r;
    }

    /** int_hash_measure without the clock: insert everything, look everything up, delete
        everything, look everything up again. */
    method Measure() returns (sink: Word)
      requires Valid()
      modifies tableKeys, tableVals
      ensures sink == XorOnto(0, Collected(old(Contents()), keys[..], values[..]))
      ensures AsGenerated(keys[..], values[..]) && NoneDropped(old(Contents()), keys[..], values[..]) ==>
        sink == XorOnto(0, values[..])
      ensures forall i :: 0 <= i < keys.Length ==> Lookup(Contents(), keys[i]) == 0
    {
      hide Insert, Lookup, Delete, Present, Dropped, Slot, HashFunc, XorOnto;
      hide InsertAll, DeleteAll, AsGenerated, NoneDropped;
      ghost var t, ks, vs := Contents(), keys[..], values[..];
      InsertPhaseLoop();
      assert Readings() == Collected(t, ks, vs);
      if AsGenerated(ks, vs) && NoneDropped(t, ks, vs) {
        EveryKeyReads(t, ks, vs);
        assert Collected(t, ks, vs) == vs;
      }
      sink := LookupPhaseLoop(0);
      ghost var full := Contents();
      DeletePhaseLoop();
      EveryKeyGone(full, ks);
      XorZeros(sink, Readings());
      sink := LookupPhaseLoop(sink);
    }
  }

  /** The keys are proper and the value is determined by the key, as init makes them (short of
      drawing the key 0). */
  ghost predicate AsGenerated(ks: seq<Word>, vs: seq<Word>)
    requires |ks| == |vs|
  {
    && (forall i :: 0 <= i < |ks| ==> ks[i] != 0)
    && (forall i, j :: 0 <= i < |ks| && 0 <= j < |ks| && ks[i] == ks[j] ==> vs[i] == vs[j])
  }

  lemma EveryKeyReads(t: Table, ks: seq<Word>, vs: seq<Word>)
    requires t.Valid() && |ks| == |vs| && NoneDropped(t, ks, vs) && AsGenerated(ks, vs)
    ensures forall i :: 0 <= i < |ks| ==> Lookup(InsertAll(t, ks, vs, |ks|), ks[i]) == vs[i]
  {
    hide Insert, Lookup, Present, Dropped;
    forall i | 0 <= i < |ks| ensures Lookup(InsertAll(t, ks, vs, |ks|), ks[i]) == vs[i] {
      InsertPhase(t, ks, vs, |ks|, i);
    }
  }

  lemma EveryKeyGone(t: Table, ks: seq<Word>)
    requires t.Valid()
    ensures forall i :: 0 <= i < |ks| ==> Lookup(DeleteAll(t, ks, |ks|), ks[i]) == 0
  {
    hide Delete, Lookup, Present;
    forall i | 0 <= i < |ks| ensures Lookup(DeleteAll(t, ks, |ks|), ks[i]) == 0 {
      DeletePhase(t, ks, |ks|, i);
    }
  }

  function XorWord(sink: Word, v: Word): Word {
    WordsIsPow2();
    XorBelow(sink, v, 64);
    BitXor(sink, v)
  }

  /** sink ^= v for every v of the sequence. */
  function XorOnto(sink: Word, r: seq<Word>): Word {
    if r == [] then sink else XorWord(XorOnto(sink, r[..|r| - 1]), r[|r| - 1])
  }

  lemma {:induction false} XorZeros(sink: Word, r: seq<Word>)
    requires forall i :: 0 <= i < |r| ==> r[i] == 0
    ensures XorOnto(sink, r) == sink
  {
    if r != [] {
      XorZeros(sink, r[..|r| - 1]);
    }
  }

  /** The number of values of r whose bit k is set. */
  ghost function SetBits(r: seq<Word>, k: nat): nat {
    |set i: nat | i < |r| && Bit(r[i], k) == 1|
  }

  lemma SetBitsGrow(r: seq<Word>, k: nat)
    requires r != []
    ensures SetBits(r, k) == SetBits(r[..|r| - 1], k) + if Bit(r[|r| - 1], k) == 1 then 1 else 0
  {
    hide Bit;
    var n := |r| - 1;
    var before := set i: nat | i < n && Bit(r[..n][i], k) == 1;
    assert (set i: nat | i < |r| && Bit(r[i], k) == 1) == before + if Bit(r[n], k) == 1 then {n} else {};
  }

  lemma {:induction false} BitIsBinary(x: nat, k: nat)
    ensures Bit(x, k) == 0 || Bit(x, k) == 1
  {
    if k > 0 {
      BitIsBinary(x / 2, k - 1);
    }
  }

  lemma NoBits(r: seq<Word>, k: nat)
    requires r == []
    ensures Bit(0, k) == 0 && SetBits(r, k) == 0
  {
    hide Bit;
    NoBit(k);
    assert (set i: nat | i < |r| && Bit(r[i], k) == 1) == {};
  }

  lemma {:induction false} NoBit(k: nat)
    ensures Bit(0, k) == 0
  {
    if k > 0 {
      NoBit(k - 1);
    }
  }

  /** What the collected value says: each of its bits is the parity of that bit over all values. */
  lemma {:induction false} CollectedParity(r: seq<Word>, k: nat)
    ensures Bit(XorOnto(0, r), k) == SetBits(r, k) % 2
  {
    hide Bit, SetBits, BitXor;
    if r == [] {
      NoBits(r, k);
    } else {
      var init, last := r[..|r| - 1], r[|r| - 1];
      CollectedParity(init, k);
      SetBitsGrow(r, k);
      XorBit(XorOnto(0, init), last, k);
      BitIsBinary(last, k);
    }
  }
}
