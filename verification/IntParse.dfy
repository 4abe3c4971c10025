/** Printing integers as comma-terminated decimal text and parsing them back. */
module IntParse {
  import opened Arithmetic

  newtype int64 = x: int | -0x8000_0000_0000_0000 <= x < 0x8000_0000_0000_0000

  const INT64_LIMIT: nat := 0x8000_0000_0000_0000

  predicate IsDigit(c: char) {
    '0' <= c <= '9'
  }

  function DigitValue(c: char): (d: nat)
    requires IsDigit(c)
    ensures d < 10
  {
    c as int - '0' as int
  }

  predicate AllDigits(s: string) {
    forall i :: 0 <= i < |s| ==> IsDigit(s[i])
  }

  /** The number that a run of digits denotes. */
  function Value(s: string): nat
    requires AllDigits(s)
  {
    if s == [] then 0 else 10 * Value(s[..|s| - 1]) + DigitValue(s[|s| - 1])
  }

  /** What the format "%PRId64" prints for a non-negative integer. */
  function Decimal(n: nat): (s: string)
    ensures |s| >= 1 && AllDigits(s)
  {
    var c := ('0' as int + n % 10) as char;
    if n < 10 then [c] else Decimal(n / 10) + [c]
  }

  lemma {:induction false} ValueOfDecimal(n: nat)
    ensures Value(Decimal(n)) == n
  {
    var s := Decimal(n);
    var c := s[|s| - 1];
    assert DigitValue(c) == n % 10;
    if n < 10 {
      assert s[..|s| - 1] == [];
    } else {
      ValueOfDecimal(n / 10);
      assert s[..|s| - 1] == Decimal(n / 10);
    }
  }

  function Pow10(k: nat): (p: nat)
    ensures p >= 1
  {
    if k == 0 then 1 else 10 * Pow10(k - 1)
  }

  /** The k-th decimal place of v. */
  function Place(v: nat, k: nat): nat {
    v / Pow10(k) % 10
  }

  lemma ShiftDigit(v: nat, d: nat, p: nat)
    requires d < 10 && p >= 1
    ensures (10 * v + d) / (10 * p) == v / p
  {
    var q, r := v / p, v % p;
    assert v == q * p + r;
    assert 10 * (q * p) == q * (10 * p);
    Quotient(10 * v + d, 10 * p, q, 10 * r + d);
  }

  /** Appending a digit moves every decimal place up by one. */
  lemma NextPlace(v: nat, d: nat, x: nat, k: nat)
    requires d < 10 && x == 10 * v + d
    ensures Place(x, k) == if k == 0 then d else Place(v, k - 1)
  {
    if k > 0 {
      ShiftDigit(v, d, Pow10(k - 1));
    } else {
      Quotient(x, 10, v, d);
    }
  }

  /** What a run denotes: its k-th character from the right stands for k-th decimal place. */
  lemma {:induction false} PlaceValue(s: string, k: nat)
    requires AllDigits(s)
    ensures Place(Value(s), k) == if k < |s| then s[|s| - 1 - k] as int - '0' as int else 0
  {
    if s == [] {
      assert Place(0, k) == 0 by { Quotient(0, Pow10(k), 0, 0); }
    } else {
      var init, d := s[..|s| - 1], DigitValue(s[|s| - 1]);
      assert Value(s) == 10 * Value(init) + d;
      hide Value, Place;
      NextPlace(Value(init), d, Value(s), k);
      if k > 0 {
        PlaceValue(init, k - 1);
        assert k < |s| ==> init[|init| - 1 - (k - 1)] == s[|s| - 1 - k];
      }
    }
  }

  /** What is printed: the k-th character from the right shows the k-th decimal place, and there
      is no leading zero. */
  lemma {:induction false} DecimalPlaces(n: nat, k: nat)
    ensures var s := Decimal(n);
      && (k < |s| ==> s[|s| - 1 - k] as int == '0' as int + Place(n, k))
      && (n > 0 ==> s[0] != '0') && (n == 0 ==> s == "0")
  {
    hide Place;
    NextPlace(n / 10, n % 10, n, k);
    if n >= 10 {
      DecimalPlaces(n / 10, if k > 0 then k - 1 else 0);
    }
  }

  /** A prefix of a run denotes a number no larger, so no intermediate value overflows. */
  lemma {:induction false} ValueOfPrefix(s: string, k: nat)
    requires AllDigits(s) && k <= |s|
    ensures Value(s[..k]) <= Value(s)
    ensures k < |s| ==> 10 * Value(s[..k]) + DigitValue(s[k]) <= Value(s)
  {
    if k == |s| {
      assert s[..k] == s;
    } else {
      var init := s[..|s| - 1];
      assert init[..k] == s[..k];
      ValueOfPrefix(init, k);
    }
  }

  lemma ValueOfNone(s: string)
    ensures Value(s[..0]) == 0
  {
  }

  lemma ValueOfNext(s: string, k: nat)
    requires AllDigits(s) && k < |s|
    ensures Value(s[..k + 1]) == 10 * Value(s[..k]) + DigitValue(s[k])
  {
    assert s[..k + 1][..k] == s[..k];
  }

  /** The end of the run of digits at p. */
  function RunEnd(text: string, p: nat): (e: nat)
    requires p <= |text|
    ensures p <= e <= |text|
    ensures forall i :: p <= i < e ==> IsDigit(text[i])
    ensures e < |text| ==> !IsDigit(text[e])
    decreases |text| - p
  {
    if p < |text| && IsDigit(text[p]) then RunEnd(text, p + 1) else p
  }

  lemma RunEndUnique(text: string, p: nat, e: nat)
    requires p <= e < |text| && !IsDigit(text[e]) && forall i :: p <= i < e ==> IsDigit(text[i])
    ensures RunEnd(text, p) == e
  {
    hide IsDigit;
  }

  function AfterRun(text: string, p: nat): nat
    requires p <= |text| && RunEnd(text, p) < |text|
  {
    var e := RunEnd(text, p);
    if text[e] == ',' then e + 1 else e
  }

  /** What parse_int_fast returns and where it leaves the pointer, or that its signed 64-bit
      arithmetic overflows, which is undefined in the program. */
  datatype Parsed = Parsed(val: int64, p: nat) | Overflow

  /** parse_int_fast: the caller's text must end the run before the text ends. The arithmetic
      overflows if and only if the run denotes a number beyond the signed 64-bit range. */
  method ParseIntFast(text: string, start: nat) returns (r: Parsed)
    requires start < |text| && RunEnd(text, start) < |text|
    ensures r.Overflow? <==> Value(text[start..RunEnd(text, start)]) >= 0x8000_0000_0000_0000
    ensures r.Parsed? ==>
      r.val as int == Value(text[start..RunEnd(text, start)]) && r.p == AfterRun(text, start)
  {
    hide RunEnd, Value;
    ghost var e := RunEnd(text, start);
    ghost var run := text[start..e];
    var p, val: int64 := start, 0;
    assert Value(run[..0]) == 0 by { ValueOfNone(run); }
    while '0' <= text[p] <= '9'
      invariant start <= p <= e
      invariant val as int == Value(run[..p - start])
      decreases e - p
    {
      ghost var k := p - start;
      ValueOfPrefix(run, k + 1);
      ValueOfNext(run, k);
      var next := val as int * 10 + (text[p] as int - '0' as int);
      if next >= INT64_LIMIT {
        return Overflow;
      }
      val := next as int64;
      p := p + 1;
    }
    assert run[..e - start] == run;
    if text[p] == ',' {
      p := p + 1;
    }
    return Parsed(val, p);
  }

  // ---------------------------------------------------------------- the round trip

  type Parsable = x: nat | x < 0x8000_0000_0000_0000

  function Encode(vals: seq<Parsable>): string {
    if vals == [] then [] else Encode(vals[..|vals| - 1]) + Decimal(vals[|vals| - 1]) + [',']
  }

  lemma EncodeNothing(vals: seq<Parsable>)
    ensures Encode(vals[..0]) == []
  {
  }

  lemma EncodeNext(vals: seq<Parsable>, i: nat)
    requires i < |vals|
    ensures Encode(vals[..i + 1]) == Encode(vals[..i]) + (Decimal(vals[i]) + [','])
  {
    hide Decimal;
    assert vals[..i + 1][..i] == vals[..i];
  }

  /** The text before item i is the text of the items before it. */
  lemma {:induction false} EncodePrefix(vals: seq<Parsable>, i: nat)
    requires i <= |vals|
    ensures |Encode(vals[..i])| <= |Encode(vals)| && Encode(vals)[..|Encode(vals[..i])|] == Encode(vals[..i])
  {
    if i == |vals| {
      assert vals[..i] == vals;
    } else {
      var init := vals[..|vals| - 1];
      EncodePrefix(init, i);
      assert init[..i] == vals[..i];
    }
  }

  /** Where item i stands in the text: its digits, then a comma. */
  lemma ItemAt(vals: seq<Parsable>, i: nat, text: string)
    requires i < |vals| && Encode(vals) <= text
    ensures var p, q := |Encode(vals[..i])|, |Encode(vals[..i + 1])|;
      && p < q - 1 < q <= |Encode(vals)|
      && text[p..q - 1] == Decimal(vals[i]) && text[q - 1] == ','
  {
    hide Encode, Decimal;
    EncodePrefix(vals, i);
    EncodePrefix(vals, i + 1);
    EncodeNext(vals, i);
    var p, q := |Encode(vals[..i])|, |Encode(vals[..i + 1])|;
    var piece := Encode(vals[..i + 1]);
    assert text[..q] == piece by {
      assert text[..|Encode(vals)|] == Encode(vals);
      assert text[..q] == Encode(vals)[..q];
    }
    assert text[p..q - 1] == text[..q][p..q - 1] == piece[p..q - 1];
    assert text[q - 1] == text[..q][q - 1] == piece[q - 1];
  }

  lemma ItemParses(vals: seq<Parsable>, i: nat, text: string)
    requires i < |vals| && Encode(vals) <= text && |text| > |Encode(vals)|
    ensures var p := |Encode(vals[..i])|;
      && p < |text| && RunEnd(text, p) < |text|
      && Value(text[p..RunEnd(text, p)]) == vals[i]
      && AfterRun(text, p) == |Encode(vals[..i + 1])|
  {
    ItemAt(vals, i, text);
    var p, q := |Encode(vals[..i])|, |Encode(vals[..i + 1])|;
    var digits := Decimal(vals[i]);
    forall k | p <= k < q - 1 ensures IsDigit(text[k]) {
      assert text[k] == text[p..q - 1][k - p] == digits[k - p];
    }
    hide IsDigit, Decimal, Encode;
    RunEndUnique(text, p, q - 1);
    ValueOfDecimal(vals[i]);
  }

  // ---------------------------------------------------------------- the benchmark

  lemma {:induction false} DecimalLength(n: nat, k: nat)
    requires n < Pow10(k + 1)
    ensures |Decimal(n)| <= k + 1
  {
    if n >= 10 {
      DecimalLength(n / 10, k - 1);
    }
  }

  /** A field of the text has at most 20 characters, so 32 bytes hold it and its terminator. */
  lemma FieldFits(v: Parsable)
    ensures |Decimal(v)| <= 19
  {
    assert Pow10(19) == 10_000_000_000_000_000_000 by {
      assert Pow10(5) == 100_000;
      assert Pow10(10) == 10_000_000_000;
      assert Pow10(15) == 1_000_000_000_000_000;
    }
    DecimalLength(v, 18);
  }

  /** The loop of int_parse_init, 32 bytes of buffer per item: every field is printed in full,
      and the text is followed by its terminator. */
  method BuildText(vals: seq<Parsable>, buf: array<char>)
    requires buf.Length == 32 * |vals|
    modifies buf
    ensures |Encode(vals)| <= buf.Length && buf[..|Encode(vals)|] == Encode(vals)
    ensures vals != [] ==> |Encode(vals)| < buf.Length && buf[|Encode(vals)|] == '\0'
  {
    hide Decimal, Value, Encode;
    var p := 0;
    EncodeNothing(vals);
    for i := 0 to |vals|
      invariant p == |Encode(vals[..i])| <= 20 * i
      invariant buf[..p] == Encode(vals[..i])
      invariant i > 0 ==> p < buf.Length && buf[p] == '\0'
    {
      FieldFits(vals[i]);
      EncodeNext(vals, i);
      var written := Snprintf(buf, p, 32, Decimal(vals[i]) + [',']);
      assert buf[..p + written] == buf[..p] + buf[p..p + written];
      p := p + written;
    }
    assert vals[..|vals|] == vals;
  }

  /** snprintf of a finished field: at most size - 1 characters and a terminator are stored,
      and the untruncated length is returned. */
  method Snprintf(buf: array<char>, p: nat, size: nat, field: string) returns (written: nat)
    requires size >= 1 && p + size <= buf.Length
    modifies buf
    ensures written == |field|
    ensures buf[..p] == old(buf[..p])
    ensures |field| < size ==> buf[p..p + |field|] == field && buf[p + |field|] == '\0'
  {
    var n := if |field| < size then |field| else size - 1;
    forall k | 0 <= k < n {
      buf[p + k] := field[k];
    }
    buf[p + n] := '\0';
    written := |field|;
  }

  /** int_parse_measure without the clock: parsing the whole text gives back the list, the
      pointer ends on the terminator, and re-parsing the first items finds no difference. */
  method Measure(vals: seq<Parsable>, text: string, results: array<int64>) returns (p: nat, mismatch: bool)
    requires Encode(vals) <= text && |text| > |Encode(vals)| && results.Length == |vals|
    modifies results
    ensures forall i :: 0 <= i < |vals| ==> results[i] as int == vals[i]
    ensures p == |Encode(vals)|
    ensures !mismatch
  {
    hide Encode, Value, RunEnd, AfterRun;
    p := 0;
    assert |Encode(vals[..0])| == 0 by { EncodeNothing(vals); }
    for i := 0 to |vals|
      invariant p == |Encode(vals[..i])|
      invariant forall k :: 0 <= k < i ==> results[k] as int == vals[k]
    {
      ItemParses(vals, i, text);
      var r := ParseIntFast(text, p);
      results[i], p := r.val, r.p;
    }
    assert vals[..|vals|] == vals;
    mismatch := Reparse(vals, text, results);
  }

  /** The check after the measured loop. */
  method Reparse(vals: seq<Parsable>, text: string, results: array<int64>) returns (mismatch: bool)
    requires Encode(vals) <= text && |text| > |Encode(vals)| && results.Length == |vals|
    ensures mismatch <==> exists i :: 0 <= i < |vals| && i < 10 && results[i] as int != vals[i]
  {
    hide Encode, Value, RunEnd, AfterRun;
    var vp, i := 0, 0;
    EncodeNothing(vals);
    while i < 10 && i < |vals|
      invariant i <= |vals| && vp == |Encode(vals[..i])|
      invariant forall k :: 0 <= k < i ==> results[k] as int == vals[k]
    {
      ItemParses(vals, i, text);
      var r := ParseIntFast(text, vp);
      vp := r.p;
      if r.val != results[i] {
        assert results[i] as int != vals[i];
        return true;
      }
      i := i + 1;
    }
    return false;
  }
}
