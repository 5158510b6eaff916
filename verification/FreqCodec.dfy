/** Frequencies as mantissa and exponent (iwlib.c: iw_float2freq and iw_freq2float, each in a
    version with the mathematical library and one without), in exact arithmetic. */
module FreqCodec {
  import opened Arith

  datatype Freq = Freq(m: int, e: int)

  function Ten(k: nat): (r: nat)
    ensures r >= 1
  {
    if k == 0 then 1 else 10 * Ten(k - 1)
  }

  /** The value meant by a mantissa and an exponent. */
  function Value(q: Freq): real {
    if q.e >= 0 then (q.m * Ten(q.e)) as real else q.m as real / Ten(-q.e) as real
  }

  /** How many times 10^k goes into f. */
  function Part(f: real, k: nat): int {
    (f / Ten(k) as real).Floor
  }

  // ---------- powers of ten ----------

  lemma TenNext(k: nat)
    ensures Ten(k + 1) == 10 * Ten(k)
  {}

  lemma SmallTens()
    ensures Ten(0) == 1 && Ten(8) == 100_000_000 && Ten(9) == 1_000_000_000
  {
    TenNext(0); TenNext(1); TenNext(2); TenNext(3); TenNext(4);
    TenNext(5); TenNext(6); TenNext(7); TenNext(8);
  }

  lemma {:induction false} TenAdd(a: nat, b: nat)
    ensures Ten(a + b) == Ten(a) * Ten(b)
    decreases b
  {
    if b > 0 { TenAdd(a, b - 1); }
  }

  lemma {:induction false} TenMono(a: nat, b: nat)
    requires a <= b
    ensures Ten(a) <= Ten(b) && (a < b ==> Ten(a) < Ten(b))
    decreases b
  {
    if a < b { TenMono(a, b - 1); }
  }

  /** A larger mantissa is a larger value. */
  lemma MulOrder(a: int, b: int, t: int)
    requires t >= 1
    ensures a * t <= b * t <==> a <= b
  {
    if a <= b { MulMono(a, b, t); } else { MulMono(b + 1, a, t); }
  }

  /** Conversion to real distributes over a product. */
  lemma {:induction false} RealProduct(a: int, b: nat)
    ensures (a * b) as real == a as real * b as real
    decreases b
  {
    if b > 0 { RealProduct(a, b - 1); }
  }

  lemma RealOrder(a: real, b: real, c: real)
    requires c > 0.0
    ensures a <= b <==> a * c <= b * c
  {
    if a > b { assert (a - b) * c > 0.0; }
  }

  lemma RealQuotient(f: real, t: real)
    requires t > 0.0
    ensures f / t * t == f
  {}

  lemma MultipleBelow(n: int, f: real, t: nat)
    requires t >= 1
    ensures n as real <= f / t as real <==> n * t <= f.Floor
  {
    var x := f / t as real;
    RealQuotient(f, t as real);
    RealProduct(n, t);
    RealOrder(n as real, x, t as real);
    var whole := n * t;
    assert n as real <= x <==> whole as real <= f;
  }

  /** Whole multiples can be counted after rounding down. */
  lemma PartFloor(f: real, k: nat)
    ensures Part(f, k) == f.Floor / Ten(k)
  {
    hide Ten;
    var t := Ten(k);
    var p := Part(f, k);
    MultipleBelow(p, f, t);
    MultipleBelow(p + 1, f, t);
    assert (p + 1) * t == p * t + t;
    DivModUnique(f.Floor, t, p, f.Floor - p * t);
  }

  lemma PartBounds(f: real, k: nat)
    ensures (Part(f, k) * Ten(k)) as real <= f < ((Part(f, k) + 1) * Ten(k)) as real
  {
    hide Ten, Part;
    PartFloor(f, k);
    assert f.Floor == f.Floor / Ten(k) * Ten(k) + f.Floor % Ten(k);
  }

  lemma PartUnique(f: real, k: nat, n: int)
    requires (n * Ten(k)) as real <= f < ((n + 1) * Ten(k)) as real
    ensures Part(f, k) == n
  {
    hide Ten, Part;
    PartFloor(f, k);
    DivModUnique(f.Floor, Ten(k), n, f.Floor - n * Ten(k));
  }

  /** Cutting two more digits off. */
  lemma PartHundred(f: real, k: nat)
    ensures Part(f, k + 2) == Part(f, k) / 100
  {
    TenNext(k + 1);
    TenNext(k);
    hide Ten, Part;
    var p, t := Part(f, k), Ten(k);
    var n := p / 100;
    PartBounds(f, k);
    MulMono(100 * n, p, t);
    MulMono(p + 1, 100 * n + 100, t);
    assert n * (100 * t) == 100 * n * t && (n + 1) * (100 * t) == (100 * n + 100) * t;
    PartUnique(f, k + 2, n);
  }

  /** Multiples of 10^k are exact. */
  lemma PartExact(n: int, k: nat)
    ensures Part((n * Ten(k)) as real, k) == n
  {
    hide Ten, Part;
    PartUnique((n * Ten(k)) as real, k, n);
  }

  // ---------- the version without the library ----------

  /** The smallest exponent that brings f down to 10^9. */
  predicate IsExponent(f: real, e: nat) {
    f <= Ten(9 + e) as real && (e > 0 ==> f > Ten(8 + e) as real)
  }

  lemma LeastExponent(f: real, e: nat, k: nat)
    requires IsExponent(f, e)
    ensures f <= Ten(9 + k) as real <==> e <= k
  {
    hide Ten;
    if e <= k { TenMono(9 + e, 9 + k); } else { TenMono(9 + k, 8 + e); }
  }

  /** The C conversion to an integer. */
  function Trunc(x: real): int {
    if x >= 0.0 then x.Floor else -((-x).Floor)
  }

  /** What the loop yields for a frequency that is not negative. */
  predicate Encodes(f: real, q: Freq) {
    q.e >= 0 && IsExponent(f, q.e) && q.m == Part(f, q.e)
  }

  method Float2FreqLoop(f: real) returns (q: Freq)
    ensures q.e >= 0 && IsExponent(f, q.e)
    ensures f >= 0.0 ==> Encodes(f, q) && 0 <= q.m <= 1_000_000_000
    ensures f >= 0.0 ==> Value(q) <= f < Value(Freq(q.m + 1, q.e))
    ensures f < 0.0 ==> q == Freq(Trunc(f), 0)
  {
    hide Ten, Part, Scaled, Value, IsExponent;
    var x, e := f, 0;
    LoopStart(f);
    while x > 1_000_000_000.0
      invariant e >= 0 && Scaled(f, x, e)
      decreases x.Floor
    {
      LoopStep(f, x, e);
      x := x / 10.0;
      e := e + 1;
    }
    q := Freq(Trunc(x), e);
    LoopEnd(f, x, e);
    if f >= 0.0 { EncodedBounds(f, q); }
  }

  /** The loop's invariant. */
  predicate Scaled(f: real, x: real, e: nat) {
    && x * Ten(e) as real == f
    && (e > 0 ==> f > Ten(8 + e) as real && x > 0.0)
  }

  lemma LoopStart(f: real)
    ensures Scaled(f, f, 0)
  {}

  lemma BillionTimes(x: real, e: nat)
    ensures x <= 1_000_000_000.0 <==> x * Ten(e) as real <= Ten(9 + e) as real
  {
    hide Ten;
    SmallTens();
    TenAdd(9, e);
    RealProduct(1_000_000_000, Ten(e));
    RealOrder(x, 1_000_000_000.0, Ten(e) as real);
  }

  lemma Tenth(x: real, t: real)
    ensures x / 10.0 * (10.0 * t) == x * t
  {}

  lemma LoopStep(f: real, x: real, e: nat)
    requires x > 1_000_000_000.0 && Scaled(f, x, e)
    ensures Scaled(f, x / 10.0, e + 1) && (x / 10.0).Floor < x.Floor
  {
    hide Ten;
    TenNext(e);
    BillionTimes(x, e);
    Tenth(x, Ten(e) as real);
    assert Ten(e + 1) as real == 10.0 * Ten(e) as real;
  }

  lemma LoopEnd(f: real, x: real, e: nat)
    requires x <= 1_000_000_000.0 && Scaled(f, x, e)
    ensures IsExponent(f, e) && (f >= 0.0 <==> x >= 0.0)
    ensures f >= 0.0 ==> Part(f, e) == x.Floor
    ensures f < 0.0 ==> e == 0 && x == f
  {
    hide Ten;
    SmallTens();
    BillionTimes(x, e);
    RealOrder(0.0, x, Ten(e) as real);
    Quotient(f, x, Ten(e) as real);
  }

  lemma Quotient(f: real, x: real, t: real)
    requires t > 0.0 && x * t == f
    ensures f / t == x
  {}

  lemma EncodedBounds(f: real, q: Freq)
    requires Encodes(f, q) && f >= 0.0
    ensures Value(q) <= f < Value(Freq(q.m + 1, q.e)) && 0 <= q.m <= 1_000_000_000
  {
    hide Ten, Part;
    SmallTens();
    PartBounds(f, q.e);
    TenAdd(9, q.e);
    MulOrder(q.m, 1_000_000_000, Ten(q.e));
    MulOrder(q.m + 1, 0, Ten(q.e));
  }

  // ---------- the version with the library ----------

  /** floor(log10(f)) */
  function FloorLog10(f: real): (k: nat)
    requires f >= 1.0
    ensures Ten(k) as real <= f < Ten(k + 1) as real
    decreases f.Floor
  {
    if f < 10.0 then 0 else FloorLog10(f / 10.0) + 1
  }

  lemma LogUnique(f: real, k: nat)
    requires Ten(k) as real <= f < Ten(k + 1) as real
    ensures f >= 1.0 && FloorLog10(f) == k
  {
    hide Ten;
    var l := FloorLog10(f);
    if l < k { TenMono(l + 1, k); }
    if k < l { TenMono(k + 1, l); }
  }

  /** The library's version looks at nine digits or more. */
  lemma Long(f: real)
    requires f >= 1.0
    ensures FloorLog10(f) > 8 <==> f >= 1_000_000_000.0
  {
    hide Ten;
    SmallTens();
    var k := FloorLog10(f);
    if k > 8 { TenMono(9, k); } else { TenMono(k + 1, 9); }
  }

  function Float2FreqLibm(f: real): Freq
    requires f > 0.0
  {
    if f >= 1.0 && FloorLog10(f) > 8 then
      var l := FloorLog10(f);
      Freq(Part(f, l - 6) * 100, l - 8)
    else Freq(Trunc(f), 0)
  }

  /** Above 10^9 the loop's exponent is the library's, except that it is one less at the powers of
      ten, which both encode exactly. */
  lemma Exponents(f: real, q: Freq)
    requires f >= 1_000_000_000.0 && Encodes(f, q)
    ensures var k := FloorLog10(f);
            k > 8 && (if f == Ten(k) as real then q == Freq(1_000_000_000, k - 9) else q == Freq(Part(f, k - 8), k - 8))
  {
    hide Ten, FloorLog10, Part;
    Long(f);
    var k := FloorLog10(f);
    LeastExponent(f, q.e, k - 9);
    if f == Ten(k) as real {
      if k > 9 {
        TenMono(k - 1, k);
        LeastExponent(f, q.e, k - 10);
      }
      PowerOfTen(k);
    } else {
      LeastExponent(f, q.e, k - 8);
    }
  }

  lemma PowerOfTen(k: nat)
    requires k > 8
    ensures var f := Ten(k) as real;
            && Part(f, k - 9) == 1_000_000_000 && Value(Freq(1_000_000_000, k - 9)) == f
            && Part(f, k - 8) == 100_000_000 && Value(Freq(100_000_000, k - 8)) == f
  {
    hide Ten, Part;
    SmallTens();
    TenAdd(9, k - 9);
    TenAdd(8, k - 8);
    PartExact(1_000_000_000, k - 9);
    PartExact(100_000_000, k - 8);
  }

  lemma ValueOrder(a: int, b: int, e: nat)
    ensures Value(Freq(a, e)) <= Value(Freq(b, e)) <==> a <= b
  {
    hide Ten;
    MulOrder(a, b, Ten(e));
  }

  lemma LibmLong(f: real)
    requires f >= 1_000_000_000.0
    ensures FloorLog10(f) > 8
    ensures var k := FloorLog10(f); Float2FreqLibm(f) == Freq(Part(f, k - 8) / 100 * 100, k - 8)
  {
    hide Ten, FloorLog10, Part;
    Long(f);
    PartHundred(f, FloorLog10(f) - 8);
  }

  lemma LibmShort(f: real, q: Freq)
    requires 0.0 < f < 1_000_000_000.0 && Encodes(f, q)
    ensures q == Float2FreqLibm(f)
  {
    hide Ten, FloorLog10, Part;
    SmallTens();
    LeastExponent(f, q.e, 0);
    if f >= 1.0 { Long(f); }
    PartFloor(f, 0);
  }

  /** The library's version never exceeds the loop's, and they agree exactly if the frequency is
      under 10^9 or the two digits that it clears are zero. */
  lemma VersionsCompared(f: real, q: Freq)
    requires f > 0.0 && Encodes(f, q)
    ensures Value(Float2FreqLibm(f)) <= Value(q) <= f
    ensures f < 1_000_000_000.0 ==> Float2FreqLibm(f) == q
    ensures f >= 1_000_000_000.0 ==> FloorLog10(f) > 8
    ensures f >= 1_000_000_000.0 ==>
              (Value(Float2FreqLibm(f)) == Value(q) <==> Part(f, FloorLog10(f) - 8) % 100 == 0)
  {
    hide Ten, FloorLog10, Part, Float2FreqLibm, Value, IsExponent;
    EncodedBounds(f, q);
    if f < 1_000_000_000.0 {
      LibmShort(f, q);
    } else {
      LibmLong(f);
      Exponents(f, q);
      var k := FloorLog10(f);
      var p := Part(f, k - 8);
      if f == Ten(k) as real { PowerOfTen(k); }
      ValueOrder(p / 100 * 100, p, k - 8);
      ValueOrder(p, p / 100 * 100, k - 8);
    }
  }

  /** The library's version is short by less than one part in a million. */
  lemma LibmError(f: real)
    requires f >= 1_000_000_000.0
    ensures FloorLog10(f) > 8
    ensures var v := Value(Float2FreqLibm(f)); v <= f < v + Ten(FloorLog10(f) - 6) as real
  {
    hide Ten, FloorLog10, Part;
    Long(f);
    var k := FloorLog10(f);
    TwoMore(Part(f, k - 6), k - 8);
    PartBounds(f, k - 6);
  }

  /** In particular the versions agree on all frequencies of seven significant digits. */
  lemma AgreeOnSevenDigits(n: int, j: nat, q: Freq)
    requires var f := (n * Ten(j)) as real;
             f >= 1_000_000_000.0 && Encodes(f, q) && j >= FloorLog10(f) - 6
    ensures var f := (n * Ten(j)) as real;
            Value(Float2FreqLibm(f)) == Value(q) == f
  {
    hide Ten, FloorLog10, Part, Float2FreqLibm, Value, IsExponent;
    var f := (n * Ten(j)) as real;
    LibmLong(f);
    var k := FloorLog10(f);
    var n' := MultipleDown(n, j, k - 6);
    TwoMore(n', k - 8);
    PartExact(100 * n', k - 8);
    assert Part(f, k - 8) == 100 * n';
    VersionsCompared(f, q);
    ValueIs(100 * n', k - 8);
  }

  lemma ValueIs(m: int, e: nat)
    ensures Value(Freq(m, e)) == (m * Ten(e)) as real
  {}

  lemma TwoMore(n: int, k: nat)
    ensures n * Ten(k + 2) == 100 * n * Ten(k)
  {
    TenNext(k + 1);
    TenNext(k);
    hide Ten;
    assert n * (100 * Ten(k)) == 100 * n * Ten(k);
  }

  /** A multiple of a power of ten is one of every smaller power. */
  function MultipleDown(n: int, j: nat, i: nat): (n': int)
    requires i <= j
    ensures n * Ten(j) == n' * Ten(i)
  {
    TenAdd(j - i, i);
    assert n * (Ten(j - i) * Ten(i)) == n * Ten(j - i) * Ten(i);
    n * Ten(j - i)
  }

  // ---------- back again ----------

  /** iwlib.c: iw_freq2float without the library: a negative exponent is taken for zero. */
  method Freq2Float(q: Freq) returns (r: real)
    ensures r == Value(q) <==> q.e >= 0 || q.m == 0
    ensures q.e < 0 ==> r == q.m as real
  {
    hide Ten;
    r := q.m as real;
    SmallTens();
    var i := 0;
    while i < q.e
      invariant 0 <= i && (i <= q.e || i == 0) && r == (q.m * Ten(i)) as real
    {
      TenNext(i);
      assert q.m * (10 * Ten(i)) == 10 * (q.m * Ten(i));
      r := r * 10.0;
      i := i + 1;
    }
    if q.e < 0 { NegativeExponent(q); }
  }

  lemma NegativeExponent(q: Freq)
    requires q.e < 0
    ensures Value(q) == q.m as real <==> q.m == 0
  {
    hide Ten;
    SmallTens();
    TenMono(0, -q.e);
    var t := Ten(-q.e);
    var m := q.m as real;
    assert m / t as real * t as real == m;
    if Value(q) == m { assert m * (t as real - 1.0) == 0.0; }
  }

  /** A mantissa of at most 10^9 survives decoding and encoding with its value. */
  lemma ReencodeLoop(q: Freq, again: Freq)
    requires 0 <= q.m <= 1_000_000_000 && q.e >= 0 && Encodes(Value(q), again)
    ensures Value(again) == Value(q)
  {
    hide Ten, Part;
    var f := Value(q);
    SmallTens();
    TenAdd(9, q.e);
    MulMono(q.m, 1_000_000_000, Ten(q.e));
    LeastExponent(f, again.e, q.e);
    PartExact(MultipleDown(q.m, q.e, again.e), again.e);
  }

  /** What the library's version encoded survives decoding and encoding with it unchanged. */
  lemma ReencodeLibm(f: real)
    requires f >= 1.0
    ensures var v := Value(Float2FreqLibm(f));
            v >= 1.0 && Float2FreqLibm(v) == Float2FreqLibm(f)
  {
    hide Ten, FloorLog10, Part;
    Long(f);
    var k := FloorLog10(f);
    var v := Value(Float2FreqLibm(f));
    if k > 8 {
      var n := Part(f, k - 6);
      TwoMore(n, k - 8);
      PartBounds(f, k - 6);
      AtLeastPower(f, k, k - 6);
      LogUnique(v, k);
      PartExact(n, k - 6);
    } else {
      SmallTens();
      Long(v);
    }
  }

  /** Cutting digits off does not go below the power of ten that f reaches. */
  lemma AtLeastPower(f: real, k: nat, j: nat)
    requires j <= k && Ten(k) as real <= f
    ensures (Part(f, j) * Ten(j)) as real >= Ten(k) as real
  {
    hide Ten, Part;
    TenAdd(k - j, j);
    PartBounds(f, j);
    MulOrder(Part(f, j) + 1, Ten(k - j), Ten(j));
    MulOrder(Ten(k - j), Part(f, j), Ten(j));
  }
}
