/** Exactly when numbered names can be told apart, among the devices that ioc_name gives names to
    (ioconf.c: ioc_name). */
module IocClash {
  import opened Arith
  import opened Bytes
  import opened IocConv
  import opened IocNames
  import opened IocNumbered

  // ---------- a number with something behind it ----------

  /** b is the end of a, and only digits come before it. */
  predicate Shifted(a: string, b: string) {
    |a| > |b| && a[|a| - |b|..] == b && AllNumerals(a[..|a| - |b|])
  }

  function Ahead(a: string, b: string): string
    requires |a| >= |b|
  {
    a[..|a| - |b|]
  }

  /** The number of the first has lost digits to what stands behind it. */
  predicate Lost(m: nat, a: string, n: nat, b: string) {
    Shifted(a, b) && Decimal(n) == Decimal(m) + Ahead(a, b)
  }

  lemma ShortNumber(m: nat, a: string, n: nat, b: string)
    requires Decimal(m) + a == Decimal(n) + b && |Decimal(m)| < |Decimal(n)|
    ensures Lost(m, a, n, b)
  {
    hide Decimal;
    DecimalReads(n);
    var s, t, k := Decimal(m) + a, Decimal(n) + b, |Decimal(n)| - |Decimal(m)|;
    assert |a| - |b| == k;
    assert Decimal(n) == t[..|Decimal(n)|] == s[..|Decimal(n)|] == Decimal(m) + a[..k];
    assert b == t[|Decimal(n)|..] == s[|Decimal(n)|..] == a[k..];
    assert forall i :: 0 <= i < k ==> a[..k][i] == Decimal(n)[|Decimal(m)| + i];
  }

  /** Two numbers with something behind them are written the same in one way only, and in one way they
      should not. */
  lemma NumberTailIff(m: nat, a: string, n: nat, b: string)
    ensures Decimal(m) + a == Decimal(n) + b <==> (m == n && a == b) || Lost(m, a, n, b) || Lost(n, b, m, a)
  {
    hide Decimal, Lost;
    var s, t := Decimal(m) + a, Decimal(n) + b;
    if s == t {
      if |Decimal(m)| == |Decimal(n)| {
        assert Decimal(m) == s[..|Decimal(m)|] == t[..|Decimal(n)|] == Decimal(n);
        assert a == s[|Decimal(m)|..] == t[|Decimal(n)|..] == b;
        DecimalInjective(m, n);
      } else if |Decimal(m)| < |Decimal(n)| {
        ShortNumber(m, a, n, b);
      } else {
        ShortNumber(n, b, m, a);
      }
    }
    if Lost(m, a, n, b) { LostSame(m, a, n, b); }
    if Lost(n, b, m, a) { LostSame(n, b, m, a); }
  }

  lemma LostSame(m: nat, a: string, n: nat, b: string)
    requires Lost(m, a, n, b)
    ensures Decimal(m) + a == Decimal(n) + b && m != n && a != b
  {
    hide Decimal;
    assert a == Ahead(a, b) + b;
    assert Decimal(m) + (Ahead(a, b) + b) == Decimal(m) + Ahead(a, b) + b;
    assert |Decimal(n)| > |Decimal(m)|;
  }

  /** The least number that ends in given digits after another number: 1 before them. */
  lemma LeastNumber(m: nat, x: string, n: nat)
    requires x != "" && AllNumerals(x) && Decimal(n) == Decimal(m) + x
    ensures m >= 1 && AllNumerals("1" + x) && Reading("1" + x) <= n
  {
    hide Decimal, Reading;
    DecimalReads(n);
    DecimalReads(m);
    assert Decimal(n)[0] == Decimal(m)[0];
    NotZero(m);
    PrefixOrder(m, x);
    ReadingOf(n);
  }

  lemma OneThen(x: string)
    requires AllNumerals(x)
    ensures AllNumerals("1" + x) && Decimal(Reading("1" + x)) == Decimal(1) + x && Decimal(1) == "1"
  {
    hide Decimal, Reading;
    DigitsAppend("1", x);
    NumeralIsDecimal("1" + x);
    OneDigitReads(1);
  }

  lemma SuffixInjective(c: Config, m1: nat, m2: nat)
    requires c.pcount > 0 && Suffix(c, m1) == Suffix(c, m2)
    ensures PartOf(c, m1) == PartOf(c, m2)
  {
    hide Decimal;
    var p1, p2 := PartOf(c, m1), PartOf(c, m2);
    DecimalReads(p1);
    DecimalReads(p2);
    if p1 != 0 && p2 != 0 {
      assert Decimal(p1) == Suffix(c, m1)[|c.part|..] == Suffix(c, m2)[|c.part|..] == Decimal(p2);
      DecimalInjective(p1, p2);
    }
  }

  // ---------- controllers in the name ----------

  /** What stands behind the number of the controller. */
  function Behind1(c: Config, minor: nat): string
    requires c.pcount > 0 && c.disk.AsNumber?
  {
    c.disk.prefix + (Decimal(minor / c.pcount) + Suffix(c, minor))
  }

  /** Two minors that two controllers give one name to: what stands behind the number of one controller
      is the end of what stands behind the other's, and the digits before it make a number. */
  predicate ControllerClash(c: Config, m1: nat, m2: nat)
    requires c.pcount > 0 && c.disk.AsNumber?
  {
    var a, b := Behind1(c, m1), Behind1(c, m2);
    Shifted(a, b) && AllNumerals("1" + Ahead(a, b)) && Reading("1" + Ahead(a, b)) < 0x1_0000_0000
  }

  /** Two minors of one controller with one name: a disk loses digits to its partition. */
  predicate DiskClash(c: Config, m1: nat, m2: nat)
    requires c.pcount > 0
  {
    Lost(m1 / c.pcount, Suffix(c, m1), m2 / c.pcount, Suffix(c, m2))
  }

  ghost predicate AllDiffer(c: Config) {
    forall ctrl1: uint32, m1: nat, ctrl2: uint32, m2: nat ::
      Nameable(c, m1) && Nameable(c, m2) && EntryName(c, ctrl1, m1) == EntryName(c, ctrl2, m2) ==>
        ctrl1 == ctrl2 && m1 == m2
  }

  predicate NoClash(c: Config)
    requires c.pcount > 0 && c.disk.AsNumber?
  {
    forall m1: nat, m2: nat | m1 < IOC_MAXMINOR && m2 < IOC_MAXMINOR ::
      Nameable(c, m1) && Nameable(c, m2) ==> !ControllerClash(c, m1, m2) && !DiskClash(c, m1, m2)
  }

  lemma ExplicitNumbered(c: Config, ctrlno: uint32, minor: nat)
    requires Sized(c) && c.ctrl.Some? && c.disk.AsNumber? && Regular(c, minor)
    ensures EntryName(c, ctrlno, minor) == c.name + (c.ctrl.value + (Decimal(ctrlno) + Behind1(c, minor)))
  {
    hide Decimal, EntryName, Suffix, DiskNumber, Head;
    OwnDisks(c, ctrlno, minor);
    NumberedName(c, ctrlno, minor);
    ExplicitHead(c, ctrlno, Behind1(c, minor));
  }

  lemma ExplicitEqual(c: Config, ctrl1: uint32, m1: nat, ctrl2: uint32, m2: nat)
    requires Sized(c) && c.ctrl.Some? && c.disk.AsNumber? && Regular(c, m1) && Regular(c, m2)
    ensures EntryName(c, ctrl1, m1) == EntryName(c, ctrl2, m2) <==>
            Decimal(ctrl1) + Behind1(c, m1) == Decimal(ctrl2) + Behind1(c, m2)
  {
    hide Decimal, EntryName, Behind1;
    ExplicitNumbered(c, ctrl1, m1);
    ExplicitNumbered(c, ctrl2, m2);
    if EntryName(c, ctrl1, m1) == EntryName(c, ctrl2, m2) {
      Behind(c.name, c.ctrl.value, Decimal(ctrl1) + Behind1(c, m1), Decimal(ctrl2) + Behind1(c, m2));
    }
  }

  lemma ClashCollides(c: Config, m1: nat, m2: nat)
    requires Sized(c) && c.ctrl.Some? && c.disk.AsNumber? && Regular(c, m1) && Regular(c, m2)
    requires ControllerClash(c, m1, m2)
    ensures var n := Reading("1" + Ahead(Behind1(c, m1), Behind1(c, m2)));
            n != 1 && n < 0x1_0000_0000 && EntryName(c, 1, m1) == EntryName(c, n, m2)
  {
    hide Decimal, EntryName, Behind1, Reading;
    var a, b := Behind1(c, m1), Behind1(c, m2);
    var n := Reading("1" + Ahead(a, b));
    OneThen(Ahead(a, b));
    assert Lost(1, a, n, b);
    LostSame(1, a, n, b);
    ExplicitEqual(c, 1, m1, n, m2);
  }

  lemma DisksCollide(c: Config, ctrlno: uint32, m1: nat, m2: nat)
    requires Sized(c) && c.ctrl.Some? && c.disk.AsNumber? && Regular(c, m1) && Regular(c, m2)
    requires DiskClash(c, m1, m2)
    ensures m1 != m2 && EntryName(c, ctrlno, m1) == EntryName(c, ctrlno, m2)
  {
    hide Decimal, EntryName, Suffix, Lost;
    LostSame(m1 / c.pcount, Suffix(c, m1), m2 / c.pcount, Suffix(c, m2));
    ExplicitEqual(c, ctrlno, m1, ctrlno, m2);
  }

  lemma OnlyClashes(c: Config, ctrl1: uint32, m1: nat, ctrl2: uint32, m2: nat)
    requires Sized(c) && c.ctrl.Some? && c.disk.AsNumber? && Regular(c, m1) && Regular(c, m2)
    requires EntryName(c, ctrl1, m1) == EntryName(c, ctrl2, m2)
    ensures || (ctrl1 == ctrl2 && m1 == m2)
            || ControllerClash(c, m1, m2) || ControllerClash(c, m2, m1)
            || DiskClash(c, m1, m2) || DiskClash(c, m2, m1)
  {
    hide Decimal, EntryName, Behind1, Lost, ControllerClash, DiskClash;
    var a, b := Behind1(c, m1), Behind1(c, m2);
    ExplicitEqual(c, ctrl1, m1, ctrl2, m2);
    NumberTailIff(ctrl1, a, ctrl2, b);
    if Lost(ctrl1, a, ctrl2, b) {
      LostClash(c, ctrl1, m1, ctrl2, m2);
    } else if Lost(ctrl2, b, ctrl1, a) {
      LostClash(c, ctrl2, m2, ctrl1, m1);
    } else {
      OneController(c, m1, m2);
    }
  }

  lemma OneController(c: Config, m1: nat, m2: nat)
    requires c.pcount > 0 && c.disk.AsNumber? && Behind1(c, m1) == Behind1(c, m2)
    ensures m1 == m2 || DiskClash(c, m1, m2) || DiskClash(c, m2, m1)
  {
    hide Decimal, Suffix, Lost, PartOf;
    var d1, d2 := m1 / c.pcount, m2 / c.pcount;
    Tails(c.disk.prefix, Decimal(d1) + Suffix(c, m1), Decimal(d2) + Suffix(c, m2));
    NumberTailIff(d1, Suffix(c, m1), d2, Suffix(c, m2));
    if d1 == d2 && Suffix(c, m1) == Suffix(c, m2) {
      SuffixInjective(c, m1, m2);
      SameMinor(c, m1, m2);
    }
  }

  lemma Tails(p: string, a: string, b: string)
    requires p + a == p + b
    ensures a == b
  {
    assert a == (p + a)[|p|..] == (p + b)[|p|..] == b;
  }

  lemma LostClash(c: Config, ctrl1: uint32, m1: nat, ctrl2: uint32, m2: nat)
    requires c.pcount > 0 && c.disk.AsNumber? && Lost(ctrl1, Behind1(c, m1), ctrl2, Behind1(c, m2))
    ensures ControllerClash(c, m1, m2)
  {
    hide Decimal, Behind1, Reading;
    LeastNumber(ctrl1, Ahead(Behind1(c, m1), Behind1(c, m2)), ctrl2);
  }

  lemma Unclashed(c: Config, m1: nat, m2: nat)
    requires c.pcount > 0 && c.disk.AsNumber? && NoClash(c) && Nameable(c, m1) && Nameable(c, m2)
    ensures !ControllerClash(c, m1, m2) && !DiskClash(c, m1, m2)
  {
    hide ControllerClash, DiskClash;
  }

  /** Numbered disks on controllers that appear in the name: all devices that get names get different
      ones, over all controllers, if and only if no two minors clash, on one controller or on two. The
      condition is about the minors and the fixed strings alone. */
  lemma ExplicitIff(c: Config)
    requires Sized(c) && c.ctrl.Some? && c.disk.AsNumber?
    ensures AllDiffer(c) <==> NoClash(c)
  {
    hide Decimal, EntryName, Behind1, ControllerClash, DiskClash, Reading, Regular;
    if NoClash(c) {
      forall ctrl1: uint32, m1: nat, ctrl2: uint32, m2: nat |
        Nameable(c, m1) && Nameable(c, m2) && EntryName(c, ctrl1, m1) == EntryName(c, ctrl2, m2)
        ensures ctrl1 == ctrl2 && m1 == m2
      {
        OnlyClashes(c, ctrl1, m1, ctrl2, m2);
        Unclashed(c, m1, m2);
        Unclashed(c, m2, m1);
      }
    }
    if AllDiffer(c) {
      forall m1: nat, m2: nat | Nameable(c, m1) && Nameable(c, m2)
        ensures !ControllerClash(c, m1, m2) && !DiskClash(c, m1, m2)
      {
        if ControllerClash(c, m1, m2) { ClashCollides(c, m1, m2); }
        if DiskClash(c, m1, m2) { DisksCollide(c, 0, m1, m2); }
      }
    }
  }

  /** Without partitions the minor is the disk, and only two controllers can clash. */
  lemma NoPartitions(c: Config, m1: nat, m2: nat)
    requires c.pcount == 1 && c.disk.AsNumber?
    ensures Behind1(c, m1) == c.disk.prefix + Decimal(m1) && !DiskClash(c, m1, m2)
  {
    hide Decimal;
    assert Suffix(c, m1) == "" && Suffix(c, m2) == "" && Decimal(m1) + "" == Decimal(m1);
  }

  /** With them a disk can clash only if nothing but digits stands before the partition, and no lower
      disks do than 1 and the number that the digits lost make after a 1. */
  lemma DiskClashNeeds(c: Config, m1: nat, m2: nat)
    requires c.pcount > 0 && DiskClash(c, m1, m2)
    ensures c.pcount > 1 && AllNumerals(c.part) && m1 / c.pcount >= 1 && |Suffix(c, m1)| >= |Suffix(c, m2)|
    ensures var x := Ahead(Suffix(c, m1), Suffix(c, m2));
            AllNumerals("1" + x) && Reading("1" + x) <= m2 / c.pcount
  {
    hide Decimal, Suffix, Reading, AllNumerals, PartOf, Lost, Ahead;
    var d1, d2 := m1 / c.pcount, m2 / c.pcount;
    LostSame(d1, Suffix(c, m1), d2, Suffix(c, m2));
    if c.pcount == 1 || !AllNumerals(c.part) { NumberedSuffix(c, d1, m1, d2, m2); }
    LostLeast(d1, Suffix(c, m1), d2, Suffix(c, m2));
  }

  lemma LostLeast(m: nat, a: string, n: nat, b: string)
    requires Lost(m, a, n, b)
    ensures |a| >= |b| && m >= 1 && AllNumerals("1" + Ahead(a, b)) && Reading("1" + Ahead(a, b)) <= n
  {
    hide Decimal, Reading;
    LeastNumber(m, Ahead(a, b), n);
  }

  /** Eleven disks are enough: disk 10 of controller 1 and disk 0 of controller 11 with the digit 1
      between the numbers. */
  lemma ElevenDisks()
    ensures var c := Config("x", Some("c"), AsNumber("1"), "", 11, 1, None);
            Nameable(c, 10) && Nameable(c, 0) && EntryName(c, 1, 10) == EntryName(c, 11, 0)
  {
    hide Decimal, EntryName;
    var c := Config("x", Some("c"), AsNumber("1"), "", 11, 1, None);
    NoPartitions(c, 10, 0);
    NoPartitions(c, 0, 10);
    TwoDigits(1, 0);
    TwoDigits(1, 1);
    OneDigitReads(0);
    assert Behind1(c, 10) == "110" && Behind1(c, 0) == "10";
    assert Ahead("110", "10") == "1" && Shifted("110", "10");
    assert "1" + "1" == "11" && Reading("11") == 11 by { ReadingOf(11); }
    ClashCollides(c, 10, 0);
  }

  lemma TwoDigits(a: nat, b: nat)
    requires 0 < a < 10 && b < 10
    ensures Decimal(10 * a + b) == [('0' as int + a) as char, ('0' as int + b) as char]
  {
    hide Decimal, Reading;
    var x, y := [('0' as int + a) as char], [('0' as int + b) as char];
    OneDigitReads(a);
    ReadingOf(a);
    LastDigit(x, y);
    NumeralIsDecimal(x + y);
  }

  // ---------- implicit controllers ----------

  /** A device that gets a name and whose disk number fits in 32 bits. */
  predicate Named(c: Config, ctrlno: uint32, minor: nat) {
    Device(c, ctrlno, minor) && minor < IOC_MAXMINOR
  }

  ghost predicate AllDifferImplicit(c: Config) {
    forall ctrl1: uint32, m1: nat, ctrl2: uint32, m2: nat ::
      Named(c, ctrl1, m1) && Named(c, ctrl2, m2) && EntryName(c, ctrl1, m1) == EntryName(c, ctrl2, m2) ==>
        ctrl1 == ctrl2 && m1 == m2
  }

  /** A disk of one controller loses digits to its partition and reads as a disk of another. */
  predicate PartClash(c: Config, ctrl1: uint32, m1: nat, ctrl2: uint32, m2: nat)
    requires c.pcount > 0
  {
    Lost(DiskNumber(c, ctrl1, m1), Suffix(c, m1), DiskNumber(c, ctrl2, m2), Suffix(c, m2))
  }

  lemma ImplicitEqual(c: Config, ctrl1: uint32, m1: nat, ctrl2: uint32, m2: nat)
    requires Sized(c) && c.ctrl.None? && c.disk.AsNumber? && Named(c, ctrl1, m1) && Named(c, ctrl2, m2)
    ensures EntryName(c, ctrl1, m1) == EntryName(c, ctrl2, m2) <==>
            || (ctrl1 == ctrl2 && m1 == m2)
            || PartClash(c, ctrl1, m1, ctrl2, m2) || PartClash(c, ctrl2, m2, ctrl1, m1)
  {
    hide Decimal, EntryName, Suffix, DiskNumber, Lost, PartOf;
    var n1, n2 := DiskNumber(c, ctrl1, m1), DiskNumber(c, ctrl2, m2);
    NumberedName(c, ctrl1, m1);
    NumberedName(c, ctrl2, m2);
    NumberTailIff(n1, Suffix(c, m1), n2, Suffix(c, m2));
    if EntryName(c, ctrl1, m1) == EntryName(c, ctrl2, m2) {
      Behind(c.name, c.disk.prefix, Decimal(n1) + Suffix(c, m1), Decimal(n2) + Suffix(c, m2));
      if n1 == n2 && Suffix(c, m1) == Suffix(c, m2) {
        SuffixInjective(c, m1, m2);
        SameDevice(c, ctrl1, m1, ctrl2, m2);
      }
    }
  }

  /** That the disk is one of a controller whose disk numbers fit in 32 bits. */
  predicate DiskFits(c: Config, n: nat)
    requires c.dcount > 0
  {
    (n / c.dcount + 1) * c.dcount < 0x1_0000_0000
  }

  /** That partition p of disk n is a device that gets a name, on the controller that has the disk. */
  predicate Reach(c: Config, n: nat, p: nat)
    requires c.pcount > 0
  {
    && c.dcount > 0 && p < c.pcount && DiskFits(c, n)
    && var minor := n % c.dcount * c.pcount + p;
       minor < IOC_MAXMINOR && (c.ext.Some? ==> c.ext.value.0 != minor)
  }

  lemma DeviceAt(c: Config, n: nat, p: nat)
    requires Sized(c) && c.ctrl.None? && Reach(c, n, p)
    ensures var ctrlno, minor := n / c.dcount, n % c.dcount * c.pcount + p;
            && 0 <= ctrlno < 0x1_0000_0000 && 0 <= minor && Named(c, ctrlno, minor)
            && DiskNumber(c, ctrlno, minor) == n && PartOf(c, minor) == p
  {
    var ctrlno, d := n / c.dcount, n % c.dcount;
    var minor := d * c.pcount + p;
    MulMono(0, d, c.pcount);
    DivModUnique(minor, c.pcount, d, p);
    MulMono(d + 1, c.dcount, c.pcount);
    assert (d + 1) * c.pcount == d * c.pcount + c.pcount;
    NotNegative(n, c.dcount);
    DiskBound(ctrlno + 1, c.dcount);
    DiskNumberExact(c, ctrlno, minor);
    assert n == ctrlno * c.dcount + d;
  }

  lemma DeviceReached(c: Config, ctrlno: uint32, minor: nat)
    requires Sized(c) && c.ctrl.None? && Named(c, ctrlno, minor)
    ensures 0 <= PartOf(c, minor) && Reach(c, DiskNumber(c, ctrlno, minor), PartOf(c, minor))
  {
    hide DiskNumber;
    var n, d := DiskNumber(c, ctrlno, minor), minor / c.pcount;
    DiskNumberExact(c, ctrlno, minor);
    DivModUnique(n, c.dcount, ctrlno, d);
    assert minor == d * c.pcount + minor % c.pcount;
  }

  lemma NotNegative(n: nat, d: nat)
    requires d > 0
    ensures n / d >= 0
  {}

  /** Implicit controllers: all devices that get names get different ones, over all controllers, if and
      only if there are no two among their disks and partitions of which one loses digits to what stands
      behind it and then reads as the other. */
  lemma ImplicitIff(c: Config)
    requires Sized(c) && c.ctrl.None? && c.disk.AsNumber?
    ensures AllDifferImplicit(c) <==>
            forall n1: nat, p1: nat, n2: nat, p2: nat ::
              Reach(c, n1, p1) && Reach(c, n2, p2) ==> !Lost(n1, Suffix(c, p1), n2, Suffix(c, p2))
  {
    hide Decimal, EntryName, Suffix, DiskNumber, PartOf, Device, Reach, Lost;
    if AllDifferImplicit(c) {
      forall n1: nat, p1: nat, n2: nat, p2: nat | Reach(c, n1, p1) && Reach(c, n2, p2)
        ensures !Lost(n1, Suffix(c, p1), n2, Suffix(c, p2))
      {
        if Lost(n1, Suffix(c, p1), n2, Suffix(c, p2)) { LostCollides(c, n1, p1, n2, p2); }
      }
    }
    if forall n1: nat, p1: nat, n2: nat, p2: nat ::
         Reach(c, n1, p1) && Reach(c, n2, p2) ==> !Lost(n1, Suffix(c, p1), n2, Suffix(c, p2)) {
      forall ctrl1: uint32, m1: nat, ctrl2: uint32, m2: nat |
        Named(c, ctrl1, m1) && Named(c, ctrl2, m2) && EntryName(c, ctrl1, m1) == EntryName(c, ctrl2, m2)
        ensures ctrl1 == ctrl2 && m1 == m2
      {
        ImplicitEqual(c, ctrl1, m1, ctrl2, m2);
        DeviceReached(c, ctrl1, m1);
        DeviceReached(c, ctrl2, m2);
        SuffixOfPart(c, m1);
        SuffixOfPart(c, m2);
      }
    }
  }

  lemma LostCollides(c: Config, n1: nat, p1: nat, n2: nat, p2: nat)
    requires Sized(c) && c.ctrl.None? && c.disk.AsNumber? && Reach(c, n1, p1) && Reach(c, n2, p2)
    requires Lost(n1, Suffix(c, p1), n2, Suffix(c, p2))
    ensures !AllDifferImplicit(c)
  {
    hide Decimal, EntryName, Suffix, DiskNumber, PartOf, Device, Lost;
    LostSame(n1, Suffix(c, p1), n2, Suffix(c, p2));
    DeviceAt(c, n1, p1);
    DeviceAt(c, n2, p2);
    var ctrl1: uint32, ctrl2: uint32 := n1 / c.dcount, n2 / c.dcount;
    var m1, m2 := n1 % c.dcount * c.pcount + p1, n2 % c.dcount * c.pcount + p2;
    SuffixOfPart(c, m1);
    SuffixOfPart(c, m2);
    ImplicitEqual(c, ctrl1, m1, ctrl2, m2);
    assert DiskNumber(c, ctrl1, m1) != DiskNumber(c, ctrl2, m2);
  }

  predicate SuffixClash(c: Config, p1: nat, p2: nat)
    requires c.pcount > 0 && c.dcount > 0
  {
    var a, b := Suffix(c, p1), Suffix(c, p2);
    Shifted(a, b) && AllNumerals("1" + Ahead(a, b)) && DiskFits(c, Reading("1" + Ahead(a, b)))
  }

  lemma SuffixOfPart(c: Config, minor: nat)
    requires c.pcount > 0
    ensures 0 <= PartOf(c, minor) < c.pcount && Suffix(c, PartOf(c, minor)) == Suffix(c, minor)
  {
    hide Decimal;
    var p := minor % c.pcount;
    DivModUnique(p, c.pcount, 0, p);
    SameSuffix(c, p, minor);
  }

  lemma SmallerFits(c: Config, m: nat, n: nat)
    requires c.dcount > 0 && m <= n && DiskFits(c, n)
    ensures DiskFits(c, m)
  {
    var d := c.dcount;
    assert n == n / d * d + n % d && m == m / d * d + m % d && (n / d + 1) * d == n / d * d + d;
    if m / d > n / d { MulMono(n / d + 1, m / d, d); }
    MulMono(m / d + 1, n / d + 1, d);
  }

  /** All minors get names. */
  predicate AllNamed(c: Config) {
    c.ext.None? && c.dcount > 0 && c.dcount * c.pcount <= IOC_MAXMINOR
  }

  lemma AllReached(c: Config, n: nat, p: nat)
    requires c.pcount > 0 && AllNamed(c) && DiskFits(c, n) && p < c.pcount
    ensures Reach(c, n, p)
  {
    var d := n % c.dcount;
    MulMono(d + 1, c.dcount, c.pcount);
    assert (d + 1) * c.pcount == d * c.pcount + c.pcount;
  }

  /** If all minors get names it is enough to look at the partitions: two devices share a name if and only
      if the suffix of one partition is the end of another's, and the digits before it make a disk
      number after a 1. */
  lemma ImplicitSuffixes(c: Config)
    requires Sized(c) && c.ctrl.None? && c.disk.AsNumber? && AllNamed(c)
    ensures AllDifferImplicit(c) <==>
            forall p1: nat, p2: nat :: p1 < c.pcount && p2 < c.pcount ==> !SuffixClash(c, p1, p2)
  {
    hide Decimal, AllDifferImplicit, Suffix, Reach, DiskFits, SuffixClash, Lost;
    ImplicitIff(c);
    if AllDifferImplicit(c) {
      forall p1: nat, p2: nat | p1 < c.pcount && p2 < c.pcount ensures !SuffixClash(c, p1, p2) {
        if SuffixClash(c, p1, p2) { SuffixesCollide(c, p1, p2); }
      }
    }
    if forall p1: nat, p2: nat :: p1 < c.pcount && p2 < c.pcount ==> !SuffixClash(c, p1, p2) {
      forall n1: nat, p1: nat, n2: nat, p2: nat | Reach(c, n1, p1) && Reach(c, n2, p2)
        ensures !Lost(n1, Suffix(c, p1), n2, Suffix(c, p2))
      {
        if Lost(n1, Suffix(c, p1), n2, Suffix(c, p2)) { LostSuffix(c, n1, p1, n2, p2); }
      }
    }
  }

  lemma LostSuffix(c: Config, n1: nat, p1: nat, n2: nat, p2: nat)
    requires c.pcount > 0 && Reach(c, n1, p1) && Reach(c, n2, p2)
    requires Lost(n1, Suffix(c, p1), n2, Suffix(c, p2))
    ensures p1 < c.pcount && p2 < c.pcount && SuffixClash(c, p1, p2)
  {
    hide Decimal, Suffix, Reading;
    LostLeast(n1, Suffix(c, p1), n2, Suffix(c, p2));
    SmallerFits(c, Reading("1" + Ahead(Suffix(c, p1), Suffix(c, p2))), n2);
  }

  lemma SuffixesCollide(c: Config, p1: nat, p2: nat)
    requires Sized(c) && c.ctrl.None? && c.disk.AsNumber? && AllNamed(c) && p1 < c.pcount && p2 < c.pcount
    requires SuffixClash(c, p1, p2)
    ensures !AllDifferImplicit(c)
  {
    hide Decimal, Suffix, Reading, Reach, AllDifferImplicit, DiskFits;
    var a, b := Suffix(c, p1), Suffix(c, p2);
    var n := Reading("1" + Ahead(a, b));
    OneThen(Ahead(a, b));
    OneBelow(c, Ahead(a, b), n);
    AllReached(c, 1, p1);
    AllReached(c, n, p2);
    LostCollides(c, 1, p1, n, p2);
  }

  lemma OneBelow(c: Config, x: string, n: nat)
    requires c.dcount > 0 && Decimal(n) == Decimal(1) + x && DiskFits(c, n)
    ensures DiskFits(c, 1)
  {
    hide Decimal;
    OneDigitReads(0);
    OneDigitReads(1);
    assert Decimal(n)[0] == '1' && Decimal(0)[0] == '0';
    SmallerFits(c, 1, n);
  }

  /** In the end this: if the clash is a disk number at all, names differ if and only if there are no
      partitions or what stands before their numbers is not all digits. */
  lemma ImplicitClosed(c: Config)
    requires Sized(c) && c.ctrl.None? && c.disk.AsNumber? && AllNamed(c)
    requires AllNumerals(c.part) ==> DiskFits(c, Clash(c.part))
    ensures AllDifferImplicit(c) <==> c.pcount == 1 || !AllNumerals(c.part)
  {
    hide EntryName, DiskFits, Clash, SuffixClash, Device;
    if c.pcount == 1 || !AllNumerals(c.part) {
      forall ctrl1: uint32, m1: nat, ctrl2: uint32, m2: nat |
        Named(c, ctrl1, m1) && Named(c, ctrl2, m2) && EntryName(c, ctrl1, m1) == EntryName(c, ctrl2, m2)
        ensures ctrl1 == ctrl2 && m1 == m2
      {
        NumberedDiffer(c, ctrl1, m1, ctrl2, m2);
      }
    } else {
      FirstPartition(c);
      SuffixesCollide(c, 1, 0);
    }
  }

  lemma FirstPartition(c: Config)
    requires c.pcount > 1 && c.dcount > 0 && AllNumerals(c.part) && DiskFits(c, Clash(c.part))
    ensures SuffixClash(c, 1, 0)
  {
    hide Decimal, DiskFits, Suffix, AllNumerals;
    FirstSuffixes(c);
    var a := Suffix(c, 1);
    assert a[..|a|] == a && a[|a|..] == "";
    assert "1" + a == "1" + c.part + "1";
    OneIsDigit();
    DigitsAppend(c.part, "1");
    DigitsAppend("1", a);
  }

  lemma OneIsDigit()
    ensures AllNumerals("1")
  {}

  lemma FirstSuffixes(c: Config)
    requires c.pcount > 1
    ensures Suffix(c, 1) == c.part + "1" && Suffix(c, 0) == ""
  {
    hide Decimal;
    OneDigitReads(1);
    DivModUnique(1, c.pcount, 0, 1);
    DivModUnique(0, c.pcount, 0, 0);
  }
}
