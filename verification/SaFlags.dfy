/** The activity flags: one bit each of a 32-bit word (sa.h: A_*). */
module SaFlags {
  import opened Arith
  import opened Bytes
  import opened SaFormat

  function Pow2(i: nat): (p: nat)
    ensures p > 0
  {
    if i == 0 then 1 else 2 * Pow2(i - 1)
  }

  /** Bit i of a word of flags. */
  predicate Bit(flags: uint32, i: nat) {
    Has(flags, Pow2(i))
  }

  function SetFlag(flags: uint32, bit: uint32): uint32
    requires bit > 0
  {
    if Has(flags, bit) || flags + bit >= 0x1_0000_0000 then flags else flags + bit
  }

  function Clear(flags: uint32, bit: uint32): uint32
    requires bit > 0
  {
    if Has(flags, bit) && bit <= flags then flags - bit else flags
  }

  lemma {:induction false} Pow2Plus(i: nat, j: nat)
    ensures Pow2(i + j) == Pow2(i) * Pow2(j)
    decreases i
  {
    if i > 0 {
      Pow2Plus(i - 1, j);
      Twice(Pow2(i - 1), Pow2(j));
      assert i + j - 1 == i - 1 + j;
    }
  }

  lemma Twice(a: nat, b: nat)
    ensures 2 * (a * b) == 2 * a * b
  {}

  lemma {:induction false} Pow2Injective(i: nat, j: nat)
    requires Pow2(i) == Pow2(j)
    ensures i == j
    decreases i
  {
    if i > 0 && j > 0 { Pow2Injective(i - 1, j - 1); }
  }

  /** Adding a multiple of 2d changes no bit of weight d. */
  lemma LowerBit(n: nat, d: nat, m: nat)
    requires d > 0
    ensures (n + d * (2 * m)) / d % 2 == n / d % 2
  {
    var q, r := n / d, n % d;
    assert n == d * q + r && d * (q + 2 * m) == d * q + d * (2 * m);
    DivModUnique(n + d * (2 * m), d, q + 2 * m, r);
  }

  /** Nor does adding b to a word without that bit change what comes above it. */
  lemma UpperBit(n: nat, b: nat, m: nat)
    requires b > 0 && m > 0 && n / b % 2 == 0
    ensures (n + b) / (b * (2 * m)) == n / (b * (2 * m))
  {
    var p, r := n / b / 2, n % b;
    var u, v := p / m, p % m;
    var d, left := b * (2 * m), 2 * b * v + r;
    Parts(n, b, m, p, u, v, r);
    Bounded(b, m, v, r);
    DivModUnique(n, d, u, left);
    DivModUnique(n + b, d, u, left + b);
  }

  lemma Parts(n: nat, b: nat, m: nat, p: nat, u: nat, v: nat, r: nat)
    requires b > 0 && m > 0 && n / b == 2 * p && r == n % b && u == p / m && v == p % m
    ensures n == u * (b * (2 * m)) + (2 * b * v + r)
  {
    assert n == b * (n / b) + r;
    assert p == m * u + v;
    Distribute(b, m, u, v);
  }

  lemma Distribute(b: nat, m: nat, u: nat, v: nat)
    ensures b * (2 * (m * u + v)) == u * (b * (2 * m)) + 2 * b * v
  {
    assert b * (2 * (m * u + v)) == 2 * b * (m * u) + 2 * b * v;
    assert 2 * b * (m * u) == u * (b * (2 * m));
  }

  lemma Bounded(b: nat, m: nat, v: nat, r: nat)
    requires v < m && r < b
    ensures 2 * b * v + r + b < b * (2 * m)
  {
    MulMono(v + 1, m, 2 * b);
    assert (v + 1) * (2 * b) == 2 * b * v + 2 * b;
    assert m * (2 * b) == b * (2 * m);
  }

  lemma AddBit(flags: nat, j: nat, i: nat)
    requires flags / Pow2(j) % 2 == 0
    ensures (flags + Pow2(j)) / Pow2(i) % 2 == if i == j then 1 else flags / Pow2(i) % 2
  {
    hide Pow2;
    var b, d := Pow2(j), Pow2(i);
    if i == j {
      var q, r := flags / b, flags % b;
      assert flags + b == b * (q + 1) + r;
      DivModUnique(flags + b, b, q + 1, r);
    } else if i < j {
      Split2(i, j);
      LowerBit(flags, d, Pow2(j - i - 1));
    } else {
      Split2(j, i);
      UpperBit(flags, b, Pow2(i - j - 1));
    }
  }

  lemma Split2(i: nat, j: nat)
    requires i < j
    ensures Pow2(j) == Pow2(i) * (2 * Pow2(j - i - 1))
  {
    Pow2Plus(i, j - i);
  }

  /** A word of 32 bits without bit j < 32 has room for it. */
  lemma RoomFor(flags: uint32, j: nat)
    requires j < 32 && flags / Pow2(j) % 2 == 0 && Pow2(32) == 0x1_0000_0000
    ensures flags + Pow2(j) < 0x1_0000_0000
  {
    hide Pow2;
    Split2(j, 32);
    UpperBit(flags, Pow2(j), Pow2(31 - j));
  }

  /** Setting a flag sets that bit, clearing it clears that bit, and no other bit changes. */
  lemma SetOne(flags: uint32, j: nat, i: nat)
    requires j < 32 && Pow2(j) < 0x1_0000_0000 == Pow2(32)
    ensures Bit(SetFlag(flags, Pow2(j)), i) <==> Bit(flags, i) || i == j
  {
    hide Pow2;
    if !Bit(flags, j) {
      RoomFor(flags, j);
      AddBit(flags, j, i);
    }
  }

  lemma ClearOne(flags: uint32, j: nat, i: nat)
    requires j < 32 && Pow2(j) < 0x1_0000_0000
    ensures Bit(Clear(flags, Pow2(j)), i) <==> Bit(flags, i) && i != j
  {
    hide Pow2;
    var b := Pow2(j);
    if Bit(flags, j) {
      if flags < b { DivModUnique(flags, b, 0, flags); }
      var q, r := flags / b, flags % b;
      assert flags - b == b * (q - 1) + r;
      DivModUnique(flags - b, b, q - 1, r);
      AddBit(flags - b, j, i);
    }
  }

  lemma Powers()
    ensures Pow2(4) == A_ONE_IRQ && Pow2(8) == A_SERIAL && Pow2(9) == A_NET_DEV && Pow2(10) == A_NET_EDEV
    ensures Pow2(11) == A_DISK && Pow2(12) == A_PID && Pow2(32) == 0x1_0000_0000
  {
    assert Pow2(4) == 16 && Pow2(8) == 16 * Pow2(4) && Pow2(12) == 16 * Pow2(8);
    Pow2Plus(12, 12);
    Pow2Plus(24, 8);
  }
}
