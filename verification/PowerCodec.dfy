/** Transmission powers in dBm and in milliwatts (iwlib.c: iw_dbm2mwatt and iw_mwatt2dbm without the
    mathematical library), in exact arithmetic. */
module PowerCodec {
  import opened FreqCodec

  const LOG10_MAGIC: real := 1.25892541179
  const TOLERANCE: real := 1.000001

  function Magic(n: nat): (r: real)
    ensures r >= 1.0
  {
    if n == 0 then 1.0 else LOG10_MAGIC * Magic(n - 1)
  }

  /** The power of k dBm, a tenth of a decade being LOG10_MAGIC. */
  function Power(k: nat): real {
    Ten(k / 10) as real * Magic(k % 10)
  }

  // ---------- what one dBm is worth ----------

  /** The ten steps of one decade. */
  lemma Decade()
    ensures Magic(0) == 1.0
    ensures 1.2589 < Magic(1) < 1.2590 && 1.5848 < Magic(2) < 1.5849 && 1.9952 < Magic(3) < 1.9953
    ensures 2.5118 < Magic(4) < 2.5119 && 3.1622 < Magic(5) < 3.1623 && 3.9810 < Magic(6) < 3.9811
    ensures 5.0118 < Magic(7) < 5.0119 && 6.3095 < Magic(8) < 6.3096 && 7.9432 < Magic(9) < 7.9433
    ensures 9.9999999 < Magic(10) < 10.0
  {
    assert Magic(0) == 1.0;
    assert Magic(1) == LOG10_MAGIC;
    assert Magic(2) == LOG10_MAGIC * Magic(1);
    assert Magic(3) == LOG10_MAGIC * Magic(2);
    assert Magic(4) == LOG10_MAGIC * Magic(3);
    assert Magic(5) == LOG10_MAGIC * Magic(4);
    assert Magic(6) == LOG10_MAGIC * Magic(5);
    assert Magic(7) == LOG10_MAGIC * Magic(6);
    assert Magic(8) == LOG10_MAGIC * Magic(7);
    assert Magic(9) == LOG10_MAGIC * Magic(8);
    assert Magic(10) == LOG10_MAGIC * Magic(9);
  }

  lemma MagicNext(n: nat)
    ensures Magic(n + 1) == LOG10_MAGIC * Magic(n)
  {}

  /** One dBm more is at least a quarter more power, also from the end of one decade to the next. */
  lemma NextPower(k: nat)
    ensures Power(k + 1) >= 1.25 * Power(k) && Power(k) >= 1.0
  {
    hide Ten, Magic;
    var q, r := k / 10, k % 10;
    var t := Ten(q) as real;
    RealOrder(1.0, Magic(r), t);
    if r < 9 {
      MagicNext(r);
      assert (k + 1) / 10 == q && (k + 1) % 10 == r + 1;
      assert t * (LOG10_MAGIC * Magic(r)) == LOG10_MAGIC * (t * Magic(r));
    } else {
      Decade();
      TenNext(q);
      assert (k + 1) / 10 == q + 1 && (k + 1) % 10 == 0;
      RealOrder(1.25 * Magic(r), 10.0, t);
      assert 1.25 * Magic(r) * t == 1.25 * (t * Magic(r));
    }
  }

  lemma {:induction false} PowerMono(a: nat, b: nat)
    requires a <= b
    ensures 1.0 <= Power(a) <= Power(b)
    decreases b
  {
    hide Power;
    NextPower(a);
    if a < b {
      PowerMono(a, b - 1);
      NextPower(b - 1);
    }
  }

  // ---------- dBm to milliwatts ----------

  /** The C operators, which round toward zero. */
  function DivC(a: int, b: int): int
    requires b > 0
  {
    if a >= 0 then a / b else -(-a / b)
  }

  function ModC(a: int, b: int): int
    requires b > 0
  {
    a - DivC(a, b) * b
  }

  /** Negative powers all come out as one milliwatt. */
  function Mwatt(d: int): int {
    if d < 0 then 1 else Power(d).Floor
  }

  method Dbm2Mwatt(d: int) returns (r: int)
    ensures r == Mwatt(d)
  {
    hide Ten, Steps, Power;
    var ip, fp := DivC(d, 10), ModC(d, 10);
    var res := 1.0;
    SmallTens();
    var k := 0;
    while k < ip
      invariant 0 <= k && (k <= ip || k == 0) && res == Ten(k) as real
    {
      TenNext(k);
      res := res * 10.0;
      k := k + 1;
    }
    ghost var t := res;
    NoSteps(t);
    k := 0;
    while k < fp
      invariant 0 <= k && (k <= fp || k == 0) && res == Steps(t, k)
    {
      OneStep(t, k);
      res := res * LOG10_MAGIC;
      k := k + 1;
    }
    if d >= 0 { AllSteps(d); }
    r := Trunc(res);
  }

  function Steps(t: real, k: nat): real {
    t * Magic(k)
  }

  lemma NoSteps(t: real)
    ensures Steps(t, 0) == t
  {}

  lemma OneStep(t: real, k: nat)
    ensures Steps(t, k + 1) == Steps(t, k) * LOG10_MAGIC
  {
    MagicNext(k);
    hide Magic;
    assert t * (LOG10_MAGIC * Magic(k)) == LOG10_MAGIC * (t * Magic(k));
  }

  lemma AllSteps(d: nat)
    ensures Steps(Ten(d / 10) as real, d % 10) == Power(d) >= 1.0
  {
    PowerMono(d, d);
  }

  /** The result fits a C int up to 93 dBm. */
  lemma FitsInt(d: int)
    ensures Mwatt(d) < 0x8000_0000 <==> d <= 93
  {
    hide Power;
    if d <= 93 {
      At93();
      if d >= 0 { PowerMono(d, 93); }
    } else {
      At93();
      PowerMono(94, d);
    }
  }

  lemma At93()
    ensures Power(93) < 2_147_483_647.0 && Power(94) > 2_147_483_648.0
  {
    hide Ten, Magic;
    SmallTens();
    Decade();
  }

  // ---------- milliwatts to dBm ----------

  method Mwatt2Dbm(m: int) returns (res: nat)
    ensures Reached(m, res)
  {
    hide Ten, Magic, Scaled10, ScaledMagic, Reached;
    var fin := m as real;
    res := 0;
    ghost var a := 0;
    SmallTens();
    Start10(m);
    while fin > 10.0
      invariant res == 10 * a && Scaled10(m, fin, a)
      decreases fin.Floor
    {
      Step10(m, fin, a);
      res := res + 10;
      fin := fin / 10.0;
      a := a + 1;
    }
    ghost var x, b := fin, 0;
    StartMagic(x);
    while fin > TOLERANCE
      invariant res == 10 * a + b && b <= 10 && ScaledMagic(x, fin, b)
      decreases 10 - b
    {
      StepMagic(x, fin, b);
      res := res + 1;
      fin := fin / LOG10_MAGIC;
      b := b + 1;
    }
    AtEnd(m, a, x, fin, b);
  }

  predicate Scaled10(m: int, fin: real, a: nat) {
    fin * Ten(a) as real == m as real && (a > 0 ==> fin > 1.0)
  }

  lemma Start10(m: int)
    ensures Scaled10(m, m as real, 0)
  {}

  lemma Step10(m: int, fin: real, a: nat)
    requires Scaled10(m, fin, a) && fin > 10.0
    ensures Scaled10(m, fin / 10.0, a + 1) && (fin / 10.0).Floor < fin.Floor
  {
    hide Ten;
    TenNext(a);
    Tenth(fin, Ten(a) as real);
    assert Ten(a + 1) as real == 10.0 * Ten(a) as real;
  }

  predicate ScaledMagic(x: real, fin: real, b: nat) {
    fin * Magic(b) == x && x <= 10.0 && (b > 0 ==> x > TOLERANCE * Magic(b - 1))
  }

  lemma StartMagic(x: real)
    requires x <= 10.0
    ensures ScaledMagic(x, x, 0)
  {}

  lemma StepMagic(x: real, fin: real, b: nat)
    requires ScaledMagic(x, fin, b) && fin > TOLERANCE && b <= 10
    ensures ScaledMagic(x, fin / LOG10_MAGIC, b + 1) && b < 10
  {
    hide Magic;
    RealOrder(fin, TOLERANCE, Magic(b));
    MagicNext(b);
    Cancel(fin, LOG10_MAGIC, Magic(b));
    Decade();
  }

  lemma Cancel(x: real, c: real, t: real)
    requires c > 0.0
    ensures x / c * (c * t) == x * t
  {
    assert x / c * c == x;
    assert x / c * (c * t) == x / c * c * t;
  }

  /** The least number of dBm whose power is m milliwatts, but for the tolerance. */
  predicate Reached(m: int, k: nat) {
    m as real <= TOLERANCE * Power(k) && (k > 0 ==> m as real > TOLERANCE * Power(k - 1))
  }

  /** That is what the least one is. */
  lemma ReachedLeast(m: int, k: nat, j: nat)
    requires Reached(m, k)
    ensures m as real <= TOLERANCE * Power(j) <==> k <= j
  {
    hide Power;
    if k <= j { PowerMono(k, j); } else { PowerMono(j, k - 1); }
  }

  lemma PowerParts(a: nat, b: nat)
    requires b < 10
    ensures Power(10 * a + b) == Ten(a) as real * Magic(b)
  {
    hide Ten, Magic;
    assert (10 * a + b) / 10 == a && (10 * a + b) % 10 == b;
  }

  lemma NextDecade(a: nat)
    ensures Power(10 * a + 10) == 10.0 * Ten(a) as real
  {
    hide Ten, Magic, Power;
    TenNext(a);
    PowerParts(a + 1, 0);
    Decade();
  }

  lemma AtEnd(m: int, a: nat, x: real, fin: real, b: nat)
    requires Scaled10(m, x, a) && ScaledMagic(x, fin, b) && fin <= TOLERANCE && b <= 10
    ensures Reached(m, 10 * a + b)
  {
    hide Power, Reached, Scaled10, ScaledMagic;
    AtEndUpper(m, a, x, fin, b);
    if b > 0 {
      AtEndLower(m, a, x, fin, b);
    } else if a > 0 {
      AtEndDecade(m, a, x);
    }
    ReachedIs(m, 10 * a + b);
  }

  lemma ReachedIs(m: int, k: nat)
    requires m as real <= TOLERANCE * Power(k) && (k > 0 ==> m as real > TOLERANCE * Power(k - 1))
    ensures Reached(m, k)
  {}

  lemma AtEndUpper(m: int, a: nat, x: real, fin: real, b: nat)
    requires Scaled10(m, x, a) && ScaledMagic(x, fin, b) && fin <= TOLERANCE && b <= 10
    ensures m as real <= TOLERANCE * Power(10 * a + b)
  {
    hide Ten, Magic, Power;
    var t := Ten(a) as real;
    if b < 10 {
      PowerParts(a, b);
      RealOrder(fin, TOLERANCE, Magic(b));
      ToleranceOrder(x, Magic(b), t, m as real, Power(10 * a + b));
    } else {
      NextDecade(a);
      TenBound(x, t, m as real);
    }
  }

  lemma AtEndLower(m: int, a: nat, x: real, fin: real, b: nat)
    requires Scaled10(m, x, a) && ScaledMagic(x, fin, b) && 0 < b <= 10
    ensures m as real > TOLERANCE * Power(10 * a + b - 1)
  {
    hide Ten, Magic, Power;
    var t := Ten(a) as real;
    PowerParts(a, b - 1);
    ToleranceOrder(x, Magic(b - 1), t, m as real, Power(10 * a + b - 1));
  }

  lemma TenBound(x: real, t: real, m: real)
    requires x <= 10.0 && t > 0.0 && x * t == m
    ensures m <= TOLERANCE * (10.0 * t)
  {
    RealOrder(x, 10.0, t);
  }

  lemma ToleranceOrder(x: real, g: real, t: real, m: real, p: real)
    requires t > 0.0 && x * t == m && t * g == p
    ensures x <= TOLERANCE * g <==> m <= TOLERANCE * p
  {
    var y := TOLERANCE * g;
    RealOrder(x, y, t);
    assert y * t == TOLERANCE * (t * g);
  }

  /** Past a power of ten by no more than the tolerance. */
  lemma AtEndDecade(m: int, a: nat, x: real)
    requires Scaled10(m, x, a) && a > 0
    ensures m as real > TOLERANCE * Power(10 * a - 1)
  {
    hide Ten, Magic, Power;
    var u := Ten(a - 1) as real;
    TenNext(a - 1);
    RealOrder(x, 1.0, Ten(a) as real);
    NinthBelow(a - 1);
    assert m as real > 10.0 * u;
  }

  lemma NinthBelow(a: nat)
    ensures TOLERANCE * Power(10 * a + 9) < 10.0 * Ten(a) as real
  {
    hide Ten, Magic, Power;
    Decade();
    PowerParts(a, 9);
    var t := Ten(a) as real;
    var y := TOLERANCE * Magic(9);
    RealOrder(10.0, y, t);
    assert y * t == TOLERANCE * (t * Magic(9));
  }

  // ---------- there and back ----------

  /** From dBm to milliwatts and back never gains, and gives the same again except below zero and
      for 1, 2, 3 and 6 dBm. */
  lemma RoundTripIff(d: int, back: nat)
    requires Reached(Mwatt(d), back)
    ensures d >= 0 ==> back <= d
    ensures back == d <==> d >= 0 && d != 1 && d != 2 && d != 3 && d != 6
  {
    hide Power;
    if d >= 10 {
      TopDecades(d);
    } else if d > 0 {
      FirstDecade(d);
    }
    if d >= 0 {
      PowerMono(d, d);
      ReachedLeast(Mwatt(d), back, d);
      if d > 0 { ReachedLeast(Mwatt(d), back, d - 1); }
    }
  }

  /** From 10 dBm on, rounding down to whole milliwatts does not reach the dBm below. */
  lemma TopDecades(d: int)
    requires d >= 10
    ensures Power(d).Floor as real > TOLERANCE * Power(d - 1)
  {
    hide Ten, Magic;
    NextPower(d - 1);
    PowerMono(9, d - 1);
    SmallTens();
    Decade();
    hide Power;
  }

  lemma FirstDecade(d: int)
    requires 0 < d < 10
    ensures Power(d).Floor as real <= TOLERANCE * Power(d - 1) <==> d == 1 || d == 2 || d == 3 || d == 6
  {
    hide Ten, Magic;
    SmallTens();
    Decade();
  }

  /** One conversion after the other. */
  method ThereAndBack(d: int) returns (back: nat)
    ensures d >= 10 ==> back == d
    ensures 0 <= d < 10 ==> back <= d
    ensures back == d <==> d >= 0 && d != 1 && d != 2 && d != 3 && d != 6
  {
    hide Reached;
    var m := Dbm2Mwatt(d);
    back := Mwatt2Dbm(m);
    RoundTripIff(d, back);
  }
}
