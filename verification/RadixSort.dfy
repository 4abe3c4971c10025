/** The least-significant-digit radix sort: eight stable counting passes of one byte each,
    alternating between two buffers. */
module RadixSort {
  import opened Arithmetic
  import opened Bits

  const RADIX_SIZE: nat := 256

  /** (x >> shift) & RADIX_MASK. */
  function Digit(x: Word, shift: nat): (d: nat)
    ensures d < RADIX_SIZE
  {
    Shr(x, shift) % RADIX_SIZE
  }

  // ---------------------------------------------------------------- one pass

  /** The elements with digit c, in their order. */
  function Bucket(s: seq<Word>, shift: nat, c: nat): seq<Word> {
    if s == [] then []
    else
      var last := s[|s| - 1];
      Bucket(s[..|s| - 1], shift, c) + if Digit(last, shift) == c then [last] else []
  }

  /** The buckets below b, one after another. */
  function Buckets(s: seq<Word>, shift: nat, b: nat): seq<Word> {
    if b == 0 then [] else Buckets(s, shift, b - 1) + Bucket(s, shift, b - 1)
  }

  /** A stable sort on one digit. */
  function Pass(s: seq<Word>, shift: nat): seq<Word> {
    Buckets(s, shift, RADIX_SIZE)
  }

  function Offset(s: seq<Word>, shift: nat, b: nat): nat {
    |Buckets(s, shift, b)|
  }

  lemma {:induction false} BucketElements(s: seq<Word>, shift: nat, c: nat)
    ensures forall x :: x in Bucket(s, shift, c) ==> x in s && Digit(x, shift) == c
  {
    if s != [] {
      BucketElements(s[..|s| - 1], shift, c);
    }
  }

  lemma BucketOfLonger(s: seq<Word>, x: Word, shift: nat, c: nat)
    ensures Bucket(s + [x], shift, c) == Bucket(s, shift, c) + if Digit(x, shift) == c then [x] else []
  {
    assert (s + [x])[..|s + [x]| - 1] == s;
  }

  lemma {:induction false} BucketsOfLonger(s: seq<Word>, x: Word, shift: nat, b: nat)
    ensures multiset(Buckets(s + [x], shift, b))
         == multiset(Buckets(s, shift, b)) + if Digit(x, shift) < b then multiset{x} else multiset{}
  {
    hide Digit, Bucket;
    if b > 0 {
      var c := b - 1;
      BucketsOfLonger(s, x, shift, c);
      BucketOfLonger(s, x, shift, c);
      assert multiset(Buckets(s + [x], shift, b))
          == multiset(Buckets(s + [x], shift, c)) + multiset(Bucket(s + [x], shift, c));
      assert multiset(Buckets(s, shift, b)) == multiset(Buckets(s, shift, c)) + multiset(Bucket(s, shift, c));
    }
  }

  /** A pass rearranges its input. */
  lemma {:induction false} PassPermutes(s: seq<Word>, shift: nat)
    ensures multiset(Pass(s, shift)) == multiset(s)
    ensures |Pass(s, shift)| == |s|
  {
    hide Digit, Buckets;
    if s == [] {
      EmptyBuckets(shift, RADIX_SIZE);
    } else {
      var init, last := s[..|s| - 1], s[|s| - 1];
      PassPermutes(init, shift);
      BucketsOfLonger(init, last, shift, RADIX_SIZE);
      assert s == init + [last];
    }
    assert |multiset(Pass(s, shift))| == |Pass(s, shift)|;
  }

  lemma {:induction false} EmptyBuckets(shift: nat, b: nat)
    ensures Buckets([], shift, b) == []
  {
    if b > 0 {
      EmptyBuckets(shift, b - 1);
    }
  }

  lemma {:induction false} OffsetMonotone(s: seq<Word>, shift: nat, b: nat, c: nat)
    requires b <= c
    ensures Offset(s, shift, b) <= Offset(s, shift, c)
    ensures b < c ==> Offset(s, shift, b) + |Bucket(s, shift, b)| <= Offset(s, shift, c)
    decreases c - b
  {
    if b < c {
      OffsetMonotone(s, shift, b + 1, c);
    }
  }

  lemma {:induction false} BucketPrefix(s: seq<Word>, shift: nat, c: nat, i: nat)
    requires i <= |s|
    ensures |Bucket(s[..i], shift, c)| <= |Bucket(s, shift, c)|
    ensures i < |s| && Digit(s[i], shift) == c ==> |Bucket(s[..i], shift, c)| < |Bucket(s, shift, c)|
  {
    if i < |s| {
      var init := s[..|s| - 1];
      assert init[..i] == s[..i];
      BucketPrefix(init, shift, c, i);
    } else {
      assert s[..i] == s;
    }
  }

  // ---------------------------------------------------------------- the order

  function Pow256(p: nat): (w: nat)
    ensures w >= 1
  {
    if p == 0 then 1 else 256 * Pow256(p - 1)
  }

  /** The value of the low p bytes. */
  function LowBytes(x: Word, p: nat): (v: nat)
    ensures v < Pow256(p)
  {
    if p == 0 then 0
    else
      ByteFits(Digit(x, 8 * (p - 1)), Pow256(p - 1));
      Digit(x, 8 * (p - 1)) * Pow256(p - 1) + LowBytes(x, p - 1)
  }

  lemma ByteFits(d: nat, w: nat)
    requires d < 256
    ensures d * w + w <= 256 * w
  {
    MulMonotone(d + 1, 256, w);
  }

  ghost predicate SortedOn(s: seq<Word>, p: nat) {
    forall i, j :: 0 <= i < j < |s| ==> LowBytes(s[i], p) <= LowBytes(s[j], p)
  }

  lemma {:induction false} BucketKeepsOrder(s: seq<Word>, p: nat, c: nat)
    requires SortedOn(s, p)
    ensures SortedOn(Bucket(s, 8 * p, c), p + 1)
  {
    hide Digit, Shr;
    if s != [] {
      var init, last := s[..|s| - 1], s[|s| - 1];
      BucketKeepsOrder(init, p, c);
      BucketElements(init, 8 * p, c);
      forall x | x in init ensures LowBytes(x, p) <= LowBytes(last, p) {
        var i :| 0 <= i < |init| && init[i] == x;
        assert s[i] == x;
      }
    }
  }

  lemma SortedConcat(l: seq<Word>, r: seq<Word>, p: nat)
    requires SortedOn(l, p) && SortedOn(r, p)
    requires forall x, y :: x in l && y in r ==> LowBytes(x, p) <= LowBytes(y, p)
    ensures SortedOn(l + r, p)
  {
    hide LowBytes;
  }

  lemma SmallerDigit(x: Word, y: Word, p: nat)
    requires Digit(x, 8 * p) < Digit(y, 8 * p)
    ensures LowBytes(x, p + 1) <= LowBytes(y, p + 1)
  {
    hide Digit, Pow256;
    LeadingDigit(Digit(x, 8 * p), Digit(y, 8 * p), Pow256(p), LowBytes(x, p), LowBytes(y, p));
  }

  lemma LeadingDigit(a: nat, b: nat, w: nat, x: nat, y: nat)
    requires a < b && x < w
    ensures a * w + x <= b * w + y
  {
    MulMonotone(a + 1, b, w);
  }

  lemma {:induction false} BucketsElements(s: seq<Word>, shift: nat, b: nat)
    ensures forall x :: x in Buckets(s, shift, b) ==> Digit(x, shift) < b
  {
    hide Digit, Bucket;
    if b > 0 {
      BucketsElements(s, shift, b - 1);
      BucketElements(s, shift, b - 1);
    }
  }

  lemma {:induction false} BucketsKeepOrder(s: seq<Word>, p: nat, b: nat)
    requires SortedOn(s, p)
    ensures SortedOn(Buckets(s, 8 * p, b), p + 1)
  {
    hide Digit, LowBytes, Bucket, SortedOn;
    if b == 0 {
      SortedOnEmpty(p + 1);
    } else {
      BucketsKeepOrder(s, p, b - 1);
      BucketKeepsOrder(s, p, b - 1);
      BucketsElements(s, 8 * p, b - 1);
      BucketElements(s, 8 * p, b - 1);
      var l, r := Buckets(s, 8 * p, b - 1), Bucket(s, 8 * p, b - 1);
      forall x, y | x in l && y in r ensures LowBytes(x, p + 1) <= LowBytes(y, p + 1) {
        SmallerDigit(x, y, p);
      }
      SortedConcat(l, r, p + 1);
    }
  }

  lemma SortedOnEmpty(p: nat)
    ensures SortedOn([], p)
  {
  }

  /** The induction step of the whole sort: data sorted on its low p bytes is, after the pass on
      byte p, sorted on its low p + 1 bytes. */
  lemma PassExtendsOrder(s: seq<Word>, p: nat)
    requires SortedOn(s, p)
    ensures SortedOn(Pass(s, 8 * p), p + 1)
  {
    BucketsKeepOrder(s, p, RADIX_SIZE);
  }

  lemma {:induction false} ShrEight(x: nat, k: nat)
    ensures Shr(x, k + 8) == Shr(x, k) / 256
  {
    ShrStep(x, k); ShrStep(x, k + 1); ShrStep(x, k + 2); ShrStep(x, k + 3);
    ShrStep(x, k + 4); ShrStep(x, k + 5); ShrStep(x, k + 6); ShrStep(x, k + 7);
  }

  lemma SplitByte(h: nat, w: nat)
    ensures h * w == h / 256 * (256 * w) + h % 256 * w
  {
    var q, r := h / 256, h % 256;
    assert h == q * 256 + r;
    assert (q * 256 + r) * w == q * (256 * w) + r * w;
  }

  lemma {:induction false} LowAndHighBytes(x: Word, p: nat)
    ensures x == Shr(x, 8 * p) * Pow256(p) + LowBytes(x, p)
  {
    if p > 0 {
      LowAndHighBytes(x, p - 1);
      ShrEight(x, 8 * (p - 1));
      var h, w := Shr(x, 8 * (p - 1)), Pow256(p - 1);
      SplitByte(h, w);
    }
  }

  /** Eight bytes are the whole word. */
  lemma AllBytes(x: Word)
    ensures LowBytes(x, 8) == x
  {
    hide Pow256, Shr, LowBytes;
    LowAndHighBytes(x, 8);
    EightBytes();
    MulMonotone(1, Shr(x, 8 * 8), Pow256(8));
  }

  lemma EightBytes()
    ensures Pow256(8) == 0x1_0000_0000_0000_0000
  {
    assert Pow256(4) == 0x1_0000_0000;
    assert Pow256(6) == 0x1_0000_0000_0000;
  }

  // ---------------------------------------------------------------- stability

  /** The elements with property q, in their order. */
  function Filter(s: seq<Word>, q: Word -> bool): seq<Word> {
    if s == [] then [] else Filter(s[..|s| - 1], q) + if q(s[|s| - 1]) then [s[|s| - 1]] else []
  }

  function HasDigit(shift: nat, c: nat): Word -> bool {
    (x: Word) => Digit(x, shift) == c
  }

  /** Being equal to v on the low p bytes. */
  function HasLowBytes(p: nat, v: nat): Word -> bool {
    (x: Word) => LowBytes(x, p) == v
  }

  lemma {:induction false} BucketIsFilter(s: seq<Word>, shift: nat, c: nat)
    ensures Bucket(s, shift, c) == Filter(s, HasDigit(shift, c))
  {
    hide Digit;
    if s != [] {
      BucketIsFilter(s[..|s| - 1], shift, c);
    }
  }

  lemma {:induction false} FilterConcat(a: seq<Word>, b: seq<Word>, q: Word -> bool)
    ensures Filter(a + b, q) == Filter(a, q) + Filter(b, q)
  {
    if b == [] {
      assert a + b == a;
    } else {
      FilterConcat(a, b[..|b| - 1], q);
      assert (a + b)[..|a + b| - 1] == a + b[..|b| - 1];
    }
  }

  /** Filtering by a property and then by a narrower one is filtering by the narrower one; by an
      incompatible one, nothing is left. */
  lemma {:induction false} FilterTwice(s: seq<Word>, q: Word -> bool, r: Word -> bool)
    ensures (forall x :: x in s && r(x) ==> q(x)) ==> Filter(Filter(s, q), r) == Filter(s, r)
    ensures (forall x :: x in s && r(x) ==> !q(x)) ==> Filter(Filter(s, q), r) == []
  {
    if s != [] {
      var init, last := s[..|s| - 1], s[|s| - 1];
      FilterTwice(init, q, r);
      FilterConcat(Filter(init, q), [last], r);
      assert Filter([last], r) == if r(last) then [last] else [] by {
        assert [last][..0] == [];
      }
      assert Filter(init, q) + [] == Filter(init, q);
    }
  }

  lemma {:induction false} BucketsKeepGroup(s: seq<Word>, shift: nat, b: nat, c: nat, q: Word -> bool)
    requires forall x :: x in s && q(x) ==> Digit(x, shift) == c
    ensures Filter(Buckets(s, shift, b), q) == if c < b then Filter(s, q) else []
  {
    hide Digit, Bucket, Filter;
    if b == 0 {
      assert Filter([], q) == [] by { FilterNothing(q); }
    } else {
      BucketsKeepGroup(s, shift, b - 1, c, q);
      FilterConcat(Buckets(s, shift, b - 1), Bucket(s, shift, b - 1), q);
      BucketIsFilter(s, shift, b - 1);
      FilterTwice(s, HasDigit(shift, b - 1), q);
    }
  }

  lemma FilterNothing(q: Word -> bool)
    ensures Filter([], q) == []
  {
  }

  /** A pass is stable: it keeps the order of elements that have some digit in common. */
  lemma PassIsStable(s: seq<Word>, shift: nat, c: nat, q: Word -> bool)
    requires c < RADIX_SIZE && forall x :: x in s && q(x) ==> Digit(x, shift) == c
    ensures Filter(Pass(s, shift), q) == Filter(s, q)
    ensures Bucket(Pass(s, shift), shift, c) == Bucket(s, shift, c)
  {
    hide Digit, Buckets, Bucket;
    BucketsKeepGroup(s, shift, RADIX_SIZE, c, q);
    BucketsKeepGroup(s, shift, RADIX_SIZE, c, HasDigit(shift, c));
    BucketIsFilter(s, shift, c);
    BucketIsFilter(Pass(s, shift), shift, c);
  }

  /** The data after p passes, on bytes 0 to p - 1. */
  function Passes(s: seq<Word>, p: nat): seq<Word> {
    if p == 0 then s else Pass(Passes(s, p - 1), 8 * (p - 1))
  }

  lemma LowBytesSplit(x: Word, p: nat)
    ensures LowBytes(x, p + 1) / Pow256(p) == Digit(x, 8 * p)
    ensures LowBytes(x, p + 1) % Pow256(p) == LowBytes(x, p)
  {
    hide Digit, Pow256;
    Quotient(LowBytes(x, p + 1), Pow256(p), Digit(x, 8 * p), LowBytes(x, p));
  }

  /** Elements equal on their low p bytes come out of p passes in the order they went in. */
  lemma {:induction false} PassesAreStable(s: seq<Word>, p: nat, v: nat)
    ensures Filter(Passes(s, p), HasLowBytes(p, v)) == Filter(s, HasLowBytes(p, v))
  {
    hide Digit, Pass, Filter, LowBytes, Pow256;
    if p > 0 {
      var t, w := Passes(s, p - 1), Pow256(p - 1);
      var q, r := HasLowBytes(p, v), HasLowBytes(p - 1, v % w);
      forall x ensures q(x) ==> Digit(x, 8 * (p - 1)) == v / w && r(x) {
        LowBytesSplit(x, p - 1);
      }
      PassesAreStable(s, p - 1, v % w);
      FilterTwice(s, r, q);
      FilterTwice(t, r, q);
      if x: Word :| q(x) {
        PassIsStable(t, 8 * (p - 1), v / w, q);
      } else {
        PassIsStable(t, 8 * (p - 1), 0, q);
      }
    }
  }

  // ---------------------------------------------------------------- the program's loops

  /** count[b] is the number of elements with digit b. */
  method Histogram(src: array<Word>, n: nat, shift: nat) returns (count: array<nat>)
    requires n <= src.Length
    ensures fresh(count) && count.Length == RADIX_SIZE
    ensures forall c: nat :: c < RADIX_SIZE ==> count[c] == |Bucket(src[..n], shift, c)|
  {
    hide Digit;
    count := new nat[RADIX_SIZE](_ => 0);
    for i := 0 to n
      invariant fresh(count)
      invariant forall c: nat :: c < RADIX_SIZE ==> count[c] == |Bucket(src[..i], shift, c)|
    {
      var b := Digit(src[i], shift);
      assert src[..i + 1][..i] == src[..i];
      count[b] := count[b] + 1;
    }
  }

  /** pos[b] is where the bucket of digit b begins. */
  method PrefixSums(count: array<nat>, ghost s: seq<Word>, ghost shift: nat) returns (pos: array<nat>)
    requires count.Length == RADIX_SIZE
    requires forall c: nat :: c < RADIX_SIZE ==> count[c] == |Bucket(s, shift, c)|
    ensures fresh(pos) && pos.Length == RADIX_SIZE
    ensures forall c: nat :: c < RADIX_SIZE ==> pos[c] == Offset(s, shift, c)
  {
    hide Bucket;
    pos := new nat[RADIX_SIZE](_ => 0);
    for b := 1 to RADIX_SIZE
      invariant forall c: nat :: c < b ==> pos[c] == Offset(s, shift, c)
    {
      pos[b] := pos[b - 1] + count[b - 1];
    }
  }

  /** Bucket c occupies its place, as far as the first i elements fill it. */
  ghost predicate Placed(s: seq<Word>, shift: nat, i: nat, c: nat, d: seq<Word>)
    requires i <= |s| <= |d| && c < RADIX_SIZE
  {
    OffsetFits(s, shift, i, c);
    d[Offset(s, shift, c)..Offset(s, shift, c) + |Bucket(s[..i], shift, c)|] == Bucket(s[..i], shift, c)
  }

  lemma OffsetFits(s: seq<Word>, shift: nat, i: nat, c: nat)
    requires i <= |s| && c < RADIX_SIZE
    ensures Offset(s, shift, c) + |Bucket(s[..i], shift, c)| <= |s|
    ensures i < |s| && Digit(s[i], shift) == c ==> Offset(s, shift, c) + |Bucket(s[..i], shift, c)| < |s|
  {
    hide Buckets, Bucket, Digit;
    OffsetMonotone(s, shift, c, RADIX_SIZE);
    BucketPrefix(s, shift, c, i);
    PassPermutes(s, shift);
  }

  /** Storing the next element at the end of its bucket disturbs no other bucket. */
  lemma PlaceNext(s: seq<Word>, shift: nat, i: nat, d: seq<Word>, at: nat, next: nat, d': seq<Word>)
    requires i < |s| <= |d| && next == i + 1
    requires forall c: nat :: c < RADIX_SIZE ==> Placed(s, shift, i, c, d)
    requires at == Offset(s, shift, Digit(s[i], shift)) + |Bucket(s[..i], shift, Digit(s[i], shift))| < |s|
    requires d' == d[at := s[i]]
    ensures forall c: nat :: c < RADIX_SIZE ==> Placed(s, shift, next, c, d')
  {
    hide Digit, Buckets;
    var b := Digit(s[i], shift);
    assert s[..i + 1][..i] == s[..i];
    forall c: nat | c < RADIX_SIZE ensures Placed(s, shift, next, c, d') {
      OffsetFits(s, shift, i, c);
      OffsetFits(s, shift, i, b);
      BucketPrefix(s, shift, b, i);
      BucketPrefix(s, shift, c, i);
      if c < b {
        OffsetMonotone(s, shift, c, b);
      } else if b < c {
        OffsetMonotone(s, shift, b, c);
      }
      assert Placed(s, shift, i, c, d);
    }
  }

  /** When every bucket is in place, the array is the concatenation of the buckets. */
  lemma {:induction false} AllPlaced(s: seq<Word>, shift: nat, d: seq<Word>, b: nat)
    requires |s| <= |d| && b <= RADIX_SIZE
    requires forall c: nat :: c < RADIX_SIZE ==> Placed(s, shift, |s|, c, d)
    ensures Offset(s, shift, b) <= |s| && d[..Offset(s, shift, b)] == Buckets(s, shift, b)
  {
    hide Digit, Bucket;
    if b > 0 {
      AllPlaced(s, shift, d, b - 1);
      assert Placed(s, shift, |s|, b - 1, d);
      OffsetFits(s, shift, |s|, b - 1);
      assert s[..|s|] == s;
      var o, m := Offset(s, shift, b - 1), Offset(s, shift, b);
      assert d[..m] == d[..o] + d[o..m];
    }
  }

  /** One pass of the outer loop, from src to dst. */
  method CountingPass(src: array<Word>, dst: array<Word>, n: nat, shift: nat)
    requires src != dst && n <= src.Length && n <= dst.Length
    modifies dst
    ensures dst[..n] == Pass(src[..n], shift) && dst[n..] == old(dst[n..])
  {
    hide Buckets, Bucket, Digit, Placed;
    ghost var s := src[..n];
    var count := Histogram(src, n, shift);
    var pos := PrefixSums(count, s, shift);
    NothingPlaced(s, shift, dst[..]);
    for i := 0 to n
      invariant src[..n] == s && dst[n..] == old(dst[n..])
      invariant forall c: nat :: c < RADIX_SIZE ==> pos[c] == Offset(s, shift, c) + |Bucket(s[..i], shift, c)|
      invariant forall c: nat :: c < RADIX_SIZE ==> Placed(s, shift, i, c, dst[..])
    {
      var b := Digit(src[i], shift);
      OffsetFits(s, shift, i, b);
      PlaceNext(s, shift, i, dst[..], pos[b], i + 1, dst[..][pos[b] := s[i]]);
      BucketGrows(s, shift, i);
      ghost var before := dst[..];
      dst[pos[b]] := src[i];
      assert dst[..] == before[pos[b] := s[i]];
      pos[b] := pos[b] + 1;
    }
    AllPlaced(s, shift, dst[..], RADIX_SIZE);
    PassPermutes(s, shift);
  }

  lemma BucketGrows(s: seq<Word>, shift: nat, i: nat)
    requires i < |s|
    ensures forall c: nat ::
      |Bucket(s[..i + 1], shift, c)| == |Bucket(s[..i], shift, c)| + if Digit(s[i], shift) == c then 1 else 0
  {
    hide Digit;
    assert s[..i + 1][..i] == s[..i];
  }

  lemma NothingPlaced(s: seq<Word>, shift: nat, d: seq<Word>)
    requires |s| <= |d|
    ensures forall c: nat :: c < RADIX_SIZE ==> Placed(s, shift, 0, c, d)
    ensures forall c: nat :: Bucket(s[..0], shift, c) == []
  {
    hide Buckets;
    assert s[..0] == [];
    forall c: nat | c < RADIX_SIZE ensures Placed(s, shift, 0, c, d) {
      OffsetFits(s, shift, 0, c);
      var o := Offset(s, shift, c);
      assert d[o..o + 0] == [];
    }
  }

  ghost predicate Sorted(s: seq<Word>) {
    forall i, j :: 0 <= i < j < |s| ==> s[i] <= s[j]
  }

  /** lsb_radix_sort: after eight passes and eight swaps of the two pointers, the caller's first
      array holds the sorted rearrangement of its first n elements. */
  method LsbRadixSort(src: array<Word>, dst: array<Word>, n: nat)
    requires src != dst && n <= src.Length && n <= dst.Length
    modifies src, dst
    ensures Sorted(src[..n])
    ensures multiset(src[..n]) == multiset(old(src[..n]))
    ensures src[..n] == Passes(old(src[..n]), 8)
    ensures src[n..] == old(src[n..]) && dst[n..] == old(dst[n..])
  {
    hide Pass, Shr, Digit, SortedOn;
    assert SortedOn(src[..n], 0) by { SortedOnNothing(src[..n]); }
    var from, to := src, dst;
    var shift := 0;
    ghost var p := 0;
    while shift < 64
      invariant shift == 8 * p && p <= 8
      invariant if p % 2 == 0 then from == src && to == dst else from == dst && to == src
      invariant SortedOn(from[..n], p) && multiset(from[..n]) == multiset(old(src[..n]))
      invariant from[..n] == Passes(old(src[..n]), p)
      invariant src[n..] == old(src[n..]) && dst[n..] == old(dst[n..])
      decreases 64 - shift
    {
      ghost var s := from[..n];
      CountingPass(from, to, n, shift);
      PassExtendsOrder(s, p);
      PassPermutes(s, shift);
      from, to := to, from;
      shift, p := shift + 8, p + 1;
    }
    SortedOnAllBytes(src[..n]);
  }

  lemma SortedOnNothing(s: seq<Word>)
    ensures SortedOn(s, 0)
  {
  }

  lemma SortedOnAllBytes(s: seq<Word>)
    requires SortedOn(s, 8)
    ensures Sorted(s)
  {
    hide LowBytes;
    forall i, j | 0 <= i < j < |s| ensures s[i] <= s[j] {
      AllBytes(s[i]);
      AllBytes(s[j]);
    }
  }
}
