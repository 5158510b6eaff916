/** Numbers in device names: ordinary decimal, and the letters a..z, aa, ab, ... that know no
    zero (ioconf.c: ioc_conv, ioc_ito10, ioc_ito26). */
module IocConv {
  import opened Arith
  import opened Bytes

  const DECIMAL: string := "0123456789"
  const LETTERS: string := "zabcdefghijklmnopqrstuvwxy"

  function Shift(radix: nat, p: nat, d: nat): nat {
    p * radix + d
  }

  function Quot(radix: nat, v: nat): (q: nat)
    requires radix >= 2
    ensures v > 0 ==> q < v
  {
    Shrinks(v, radix);
    v / radix
  }

  function Rem(radix: nat, v: nat): (r: nat)
    requires radix >= 2
    ensures r < radix
  {
    v % radix
  }

  lemma Shrinks(v: nat, radix: nat)
    requires radix >= 2
    ensures v / radix >= 0 && (v > 0 ==> v / radix < v)
  {
    var q := v / radix;
    assert v == q * radix + v % radix;
    if q >= v > 0 { MulMono(v, q, radix); MulMono(2, radix, v); }
    if q < 0 { MulMono(q, -1, radix); }
  }

  lemma ShiftQuotRem(radix: nat, v: nat)
    requires radix >= 2
    ensures Shift(radix, Quot(radix, v), Rem(radix, v)) == v
  {}

  lemma QuotRemShift(radix: nat, p: nat, d: nat)
    requires radix >= 2 && d < radix
    ensures Quot(radix, Shift(radix, p, d)) == p && Rem(radix, Shift(radix, p, d)) == d
  {
    DivModUnique(p * radix + d, radix, p, d);
  }

  lemma ShiftLess(radix: nat, p: nat, d: nat, q: nat, e: nat)
    requires p < q && d <= radix && e >= 1
    ensures Shift(radix, p, d) < Shift(radix, q, e)
  {
    MulMono(p + 1, q, radix);
    assert (p + 1) * radix == p * radix + radix;
  }

  lemma ShiftSame(radix: nat, p: nat, d: nat, e: nat)
    ensures Shift(radix, p, d) - Shift(radix, p, e) == d - e
  {}

  /** Digits of v with the most significant first. */
  function Standard(radix: nat, v: nat): seq<nat>
    requires radix >= 2
  {
    if v < radix then [v] else Standard(radix, Quot(radix, v)) + [Rem(radix, v)]
  }

  function QuotBelow(radix: nat, u: nat, v: nat): (q: nat)
    requires radix >= 2 && u < v
    ensures q < v
  {
    Quot(radix, u)
  }

  /** Digits 1..radix of v in the number system without a zero; none at all for 0. */
  function Zeroless(radix: nat, v: nat): seq<nat>
    requires radix >= 2
  {
    if v == 0 then [] else Zeroless(radix, QuotBelow(radix, v - 1, v)) + [Rem(radix, v - 1) + 1]
  }

  /** Positional value, the same for both systems. */
  function Value(radix: nat, ds: seq<nat>): nat {
    if ds == [] then 0 else Shift(radix, Value(radix, ds[..|ds| - 1]), ds[|ds| - 1])
  }

  function Symbol(syms: string, d: nat): char
    requires syms != ""
  {
    syms[d % |syms|]
  }

  function Spell(syms: string, ds: seq<nat>): (s: string)
    requires syms != ""
    ensures |s| == |ds|
  {
    seq(|ds|, i requires 0 <= i < |ds| => Symbol(syms, ds[i]))
  }

  predicate AllDigits(radix: nat, ds: seq<nat>) {
    forall i :: 0 <= i < |ds| ==> 1 <= ds[i] <= radix
  }

  // ---------- the system without a zero ----------

  lemma {:induction false} ZerolessValue(radix: nat, v: nat)
    requires radix >= 2
    ensures Value(radix, Zeroless(radix, v)) == v && AllDigits(radix, Zeroless(radix, v))
    decreases v
  {
    hide Shift, Quot, Rem;
    if v > 0 {
      var ds, q, r := Zeroless(radix, v), Quot(radix, v - 1), Rem(radix, v - 1);
      assert q == QuotBelow(radix, v - 1, v);
      ZerolessValue(radix, q);
      assert ds[..|ds| - 1] == Zeroless(radix, q);
      ShiftQuotRem(radix, v - 1);
      ShiftSame(radix, q, r + 1, r);
    }
  }

  lemma {:induction false} ValueZeroless(radix: nat, ds: seq<nat>)
    requires radix >= 2 && AllDigits(radix, ds)
    ensures Zeroless(radix, Value(radix, ds)) == ds
    decreases |ds|
  {
    hide Shift, Quot, Rem, Zeroless;
    if ds == [] {
      NoDigits(radix);
    } else {
      var n := |ds| - 1;
      var p, d, v := Value(radix, ds[..n]), ds[n], Value(radix, ds);
      ValueZeroless(radix, ds[..n]);
      ShiftSame(radix, p, d, d - 1);
      assert v - 1 == Shift(radix, p, d - 1);
      QuotRemShift(radix, p, d - 1);
      ZerolessStep(radix, v);
      assert ds == ds[..n] + [d];
    }
  }

  lemma NoDigits(radix: nat)
    requires radix >= 2
    ensures Zeroless(radix, 0) == []
  {}

  /** 1, 11, 111, ...: the smallest value with n digits. */
  function Ones(radix: nat, n: nat): nat {
    if n == 0 then 0 else Shift(radix, Ones(radix, n - 1), 1)
  }

  lemma {:induction false} ValueRange(radix: nat, ds: seq<nat>)
    requires radix >= 2 && AllDigits(radix, ds)
    ensures Ones(radix, |ds|) <= Value(radix, ds) < Ones(radix, |ds| + 1)
    decreases |ds|
  {
    hide Shift;
    if ds == [] {
      ShiftSame(radix, 0, 1, 0);
      OnesOne(radix);
    } else {
      var n := |ds| - 1;
      var p, d := Value(radix, ds[..n]), ds[n];
      ValueRange(radix, ds[..n]);
      if Ones(radix, n) < p { ShiftLess(radix, Ones(radix, n), 1, p, d); } else { ShiftSame(radix, p, d, 1); }
      ShiftLess(radix, p, d, Ones(radix, n + 1), 1);
    }
  }

  lemma OnesOne(radix: nat)
    ensures Ones(radix, 1) == 1
  {}

  lemma {:induction false} OnesGrow(radix: nat, m: nat, n: nat)
    requires radix >= 2 && m <= n
    ensures Ones(radix, m) <= Ones(radix, n)
    decreases n
  {
    if m < n {
      OnesGrow(radix, m, n - 1);
      MulMono(1, radix, Ones(radix, n - 1));
    }
  }

  /** Dictionary order of digit strings of one length: decided at the first difference. */
  ghost predicate Earlier(a: seq<nat>, b: seq<nat>)
    requires |a| == |b|
  {
    exists k :: 0 <= k < |a| && a[..k] == b[..k] && a[k] < b[k]
  }

  /** Shorter strings come first, equally long ones in dictionary order. */
  ghost predicate ShortLex(a: seq<nat>, b: seq<nat>) {
    |a| < |b| || (|a| == |b| && Earlier(a, b))
  }

  lemma EarlierStep(a: seq<nat>, b: seq<nat>)
    requires |a| == |b| > 0
    ensures var n := |a| - 1;
            Earlier(a, b) <==> Earlier(a[..n], b[..n]) || (a[..n] == b[..n] && a[n] < b[n])
  {
    var n := |a| - 1;
    if Earlier(a, b) {
      var k :| 0 <= k < |a| && a[..k] == b[..k] && a[k] < b[k];
      if k < n {
        assert a[..n][..k] == a[..k] && b[..n][..k] == b[..k];
        assert a[..n][k] < b[..n][k];
      }
    }
    if Earlier(a[..n], b[..n]) {
      var k :| 0 <= k < n && a[..n][..k] == b[..n][..k] && a[..n][k] < b[..n][k];
      assert a[..k] == a[..n][..k] && b[..k] == b[..n][..k];
      assert a[k] < b[k];
    }
  }

  lemma {:induction false} EarlierIsLess(radix: nat, a: seq<nat>, b: seq<nat>)
    requires radix >= 2 && AllDigits(radix, a) && AllDigits(radix, b) && |a| == |b|
    ensures Earlier(a, b) <==> Value(radix, a) < Value(radix, b)
    decreases |a|
  {
    hide Shift, Earlier;
    if a == [] {
      EmptyNotEarlier(a, b);
    } else {
      var n := |a| - 1;
      EarlierStep(a, b);
      EarlierIsLess(radix, a[..n], b[..n]);
      var p, q := Value(radix, a[..n]), Value(radix, b[..n]);
      if p < q {
        ShiftLess(radix, p, a[n], q, b[n]);
      } else if q < p {
        ShiftLess(radix, q, b[n], p, a[n]);
      } else {
        ValueZeroless(radix, a[..n]);
        ValueZeroless(radix, b[..n]);
        ShiftSame(radix, p, a[n], b[n]);
      }
    }
  }

  lemma EmptyNotEarlier(a: seq<nat>, b: seq<nat>)
    requires a == b == []
    ensures !Earlier(a, b)
  {}

  /** Numbering without a zero is an order isomorphism: it runs through all digit strings,
      shorter ones first, and through those of one length in dictionary order. */
  lemma ZerolessOrder(radix: nat, v: nat, w: nat)
    requires radix >= 2
    ensures v < w <==> ShortLex(Zeroless(radix, v), Zeroless(radix, w))
  {
    var a, b := Zeroless(radix, v), Zeroless(radix, w);
    ZerolessValue(radix, v);
    ZerolessValue(radix, w);
    ValueRange(radix, a);
    ValueRange(radix, b);
    if |a| < |b| { OnesGrow(radix, |a| + 1, |b|); }
    if |b| < |a| { OnesGrow(radix, |b| + 1, |a|); }
    if |a| == |b| { EarlierIsLess(radix, a, b); }
  }

  // ---------- ordinary numerals ----------

  lemma {:induction false} StandardValue(radix: nat, v: nat)
    requires radix >= 2
    ensures Value(radix, Standard(radix, v)) == v
    ensures forall i :: 0 <= i < |Standard(radix, v)| ==> Standard(radix, v)[i] < radix
    ensures Standard(radix, v) != [] && (v > 0 ==> Standard(radix, v)[0] > 0)
    decreases v
  {
    hide Shift, Quot, Rem;
    var ds := Standard(radix, v);
    if v < radix {
      assert ds[..0] == [];
      OneDigit(radix, v);
    } else {
      var q := Quot(radix, v);
      StandardValue(radix, q);
      assert ds[..|ds| - 1] == Standard(radix, q);
      ShiftQuotRem(radix, v);
      LargeQuot(radix, v);
    }
  }

  lemma OneDigit(radix: nat, d: nat)
    ensures Shift(radix, 0, d) == d
  {}

  lemma LargeQuot(radix: nat, v: nat)
    requires radix >= 2 && v >= radix
    ensures Quot(radix, v) > 0
  {
    ShiftQuotRem(radix, v);
  }

  /** The converse: a numeral without a leading zero is the numeral of its value. */
  lemma {:induction false} ValueStandard(radix: nat, ds: seq<nat>)
    requires radix >= 2 && ds != [] && (|ds| > 1 ==> ds[0] > 0)
    requires forall i :: 0 <= i < |ds| ==> ds[i] < radix
    ensures Standard(radix, Value(radix, ds)) == ds && (ds[0] > 0 ==> Value(radix, ds) > 0)
    decreases |ds|
  {
    hide Shift, Quot, Rem;
    var n := |ds| - 1;
    if n == 0 {
      assert ds[..0] == [];
      OneDigit(radix, ds[0]);
    } else {
      var p, d := Value(radix, ds[..n]), ds[n];
      ValueStandard(radix, ds[..n]);
      QuotRemShift(radix, p, d);
      Positive(radix, p, d);
      assert ds == ds[..n] + [d];
    }
  }

  lemma Positive(radix: nat, p: nat, d: nat)
    requires p > 0
    ensures Shift(radix, p, d) >= radix
  {
    MulMono(1, p, radix);
  }

  // ---------- the program ----------

  /** ioconf.c: ioc_conv. The buffer is filled from its end; the borrow in the system without
      a zero makes up for its highest digit being written with the symbol of 0. */
  method IocConv(radix: nat, nozero: bool, syms: string, val: uint32) returns (s: string)
    requires radix == |syms| >= 2 && (!nozero ==> syms[0] == '0')
    ensures !nozero ==> s == Spell(syms, Standard(radix, val))
    ensures nozero && val + 1 < 0x1_0000_0000 ==> s == Spell(syms, Zeroless(radix, val + 1))
    ensures nozero && val + 1 == 0x1_0000_0000 ==> s == ""
  {
    hide Quot, Rem, Symbol;
    var v := (val + if nozero then 1 else 0) % 0x1_0000_0000;
    if v == 0 {
      SmallSymbol(syms, 0);
      return if nozero then "" else "0";
    }
    s := "";
    ghost var all := Digits(radix, nozero, v);
    ghost var ds: seq<nat> := [];
    assert all + [] == all;
    while v > 0
      invariant 0 <= v && s == Spell(syms, ds)
      invariant Digits(radix, nozero, v) + ds == all
    {
      ghost var before := v;
      var j := v % radix;
      s := [syms[j]] + s;
      v := v / radix;
      if nozero && j == 0 {
        v := v - 1;
      }
      DigitStep(radix, nozero, syms, before);
      ghost var d := if nozero && j == 0 then radix else j;
      assert Digits(radix, nozero, v) + [d] + ds == Digits(radix, nozero, v) + ([d] + ds);
      ds := [d] + ds;
    }
    assert all == [] + ds;
  }

  /** Digits of v, none for 0. */
  ghost function Digits(radix: nat, nozero: bool, v: nat): seq<nat>
    requires radix >= 2
  {
    if nozero then Zeroless(radix, v) else if v == 0 then [] else Standard(radix, v)
  }

  lemma SmallSymbol(syms: string, d: nat)
    requires d < |syms|
    ensures Symbol(syms, d) == syms[d]
  {}

  /** What one turn of the loop does to the digits, the borrow included. */
  lemma DigitStep(radix: nat, nozero: bool, syms: string, v: nat)
    requires radix == |syms| >= 2 && v > 0
    ensures var j := v % radix; var d := if nozero && j == 0 then radix else j;
            var v' := if nozero && j == 0 then v / radix - 1 else v / radix;
            && 0 <= v' < v && Symbol(syms, d) == syms[j]
            && Digits(radix, nozero, v) == Digits(radix, nozero, v') + [d]
  {
    hide Standard, Zeroless;
    var q, j := v / radix, v % radix;
    Shrinks(v, radix);
    assert v == q * radix + j;
    if nozero {
      Borrow(radix, v);
      if j == 0 { DivModUnique(radix, radix, 1, 0); } else { SmallSymbol(syms, j); }
      ZerolessStep(radix, v);
    } else {
      SmallSymbol(syms, j);
      StandardStep(radix, v);
    }
  }

  lemma ZerolessStep(radix: nat, v: nat)
    requires radix >= 2 && v > 0
    ensures Zeroless(radix, v) == Zeroless(radix, Quot(radix, v - 1)) + [Rem(radix, v - 1) + 1]
  {
    hide Quot, Rem;
    assert QuotBelow(radix, v - 1, v) == Quot(radix, v - 1);
  }

  lemma StandardStep(radix: nat, v: nat)
    requires radix >= 2 && v > 0
    ensures var q := v / radix;
            q >= 0 && Standard(radix, v) == (if q == 0 then [] else Standard(radix, q)) + [v % radix]
  {
    Shrinks(v, radix);
    if v < radix {
      DivModUnique(v, radix, 0, v);
      assert [] + [v] == [v];
    } else {
      LargeQuot(radix, v);
    }
  }

  /** The division with its borrow is division in the system without a zero. */
  lemma Borrow(radix: nat, v: nat)
    requires radix >= 2 && v > 0
    ensures var j := v % radix;
            && Quot(radix, v - 1) == (if j == 0 then v / radix - 1 else v / radix)
            && Rem(radix, v - 1) + 1 == (if j == 0 then radix else j)
  {
    var q, j := v / radix, v % radix;
    assert v == q * radix + j;
    if j == 0 {
      assert (q - 1) * radix == q * radix - radix;
      DivModUnique(v - 1, radix, q - 1, radix - 1);
    } else {
      DivModUnique(v - 1, radix, q, j - 1);
    }
  }

  /** Decimal of a number. */
  function Decimal(n: nat): string {
    Spell(DECIMAL, Standard(10, n))
  }

  /** Letters of a number: a for 0, z for 25, aa for 26. */
  function Letters(n: nat): string {
    Spell(LETTERS, Zeroless(26, n + 1))
  }

  method Ito10(n: uint32) returns (s: string)
    ensures s == Decimal(n)
  {
    s := IocConv(10, false, DECIMAL, n);
  }

  /** The largest unsigned number overflows to "no name". */
  method Ito26(n: uint32) returns (s: string)
    ensures s == if n == 0xFFFF_FFFF then "" else Letters(n)
  {
    s := IocConv(26, true, LETTERS, n);
  }
}
