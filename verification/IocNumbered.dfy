/** When names with numbers in them can be told apart: numbered disks, and controllers that appear in
    the name (ioconf.c: ioc_name). */
module IocNumbered {
  import opened Arith
  import opened Bytes
  import opened IocConv
  import opened IocNames

  // ---------- numbers within strings ----------

  lemma DecimalInjective(m: nat, n: nat)
    requires Decimal(m) == Decimal(n)
    ensures m == n
  {
    hide Decimal;
    DecimalReads(m);
    DecimalReads(n);
  }

  /** Position of the first character that is no digit. */
  function FirstOther(s: string): (k: nat)
    ensures k <= |s| && (forall i :: 0 <= i < k ==> IsDigit(s[i])) && (k < |s| ==> !IsDigit(s[k]))
  {
    if s == "" || !IsDigit(s[0]) then 0 else 1 + FirstOther(s[1..])
  }

  lemma FirstOtherIs(s: string, k: nat)
    requires k <= |s| && (forall i :: 0 <= i < k ==> IsDigit(s[i])) && (k < |s| ==> !IsDigit(s[k]))
    ensures FirstOther(s) == k
  {}

  /** A number, a fixed string that is not all digits, and whatever follows can be taken apart. */
  lemma NumberThen(m: nat, n: nat, sep: string, x: string, y: string)
    requires !AllNumerals(sep) && Decimal(m) + (sep + x) == Decimal(n) + (sep + y)
    ensures m == n && x == y
  {
    hide Decimal, AllNumerals;
    NumberEnds(m, sep, x);
    NumberEnds(n, sep, y);
    var s, a, b := Decimal(m) + (sep + x), Decimal(m), Decimal(n);
    assert |a| == |b|;
    assert a == s[..|a|] == (b + (sep + y))[..|b|] == b;
    assert x == s[|a| + |sep|..] == (b + (sep + y))[|b| + |sep|..] == y;
    DecimalInjective(m, n);
  }

  lemma NumberEnds(m: nat, sep: string, x: string)
    requires !AllNumerals(sep)
    ensures FirstOther(Decimal(m) + (sep + x)) == |Decimal(m)| + FirstOther(sep)
  {
    hide Decimal;
    DecimalReads(m);
    var d, k := Decimal(m), FirstOther(sep);
    var s := d + (sep + x);
    SomeOther(sep);
    forall i | 0 <= i < |d| + k ensures IsDigit(s[i]) {
      if i >= |d| { assert s[i] == sep[i - |d|]; } else { assert s[i] == d[i]; }
    }
    assert s[|d| + k] == sep[k];
    FirstOtherIs(s, |d| + k);
  }

  lemma SomeOther(s: string)
    requires !AllNumerals(s)
    ensures FirstOther(s) < |s|
  {}

  /** The same at the end of a name: a number alone, or followed by the fixed string and a number. */
  lemma NumberedSuffix(c: Config, d1: nat, minor1: nat, d2: nat, minor2: nat)
    requires c.pcount > 0 && (c.pcount == 1 || !AllNumerals(c.part))
    requires Decimal(d1) + Suffix(c, minor1) == Decimal(d2) + Suffix(c, minor2)
    ensures d1 == d2 && PartOf(c, minor1) == PartOf(c, minor2)
  {
    hide Decimal, AllNumerals;
    var m1, m2 := PartOf(c, minor1), PartOf(c, minor2);
    assert Decimal(d1) + "" == Decimal(d1) && Decimal(d2) + "" == Decimal(d2);
    if m1 != 0 && m2 != 0 {
      NumberThen(d1, d2, c.part, Decimal(m1), Decimal(m2));
      DecimalInjective(m1, m2);
    } else if m1 == 0 && m2 != 0 {
      NotANumber(d1, d2, c.part, Decimal(m2));
    } else if m1 != 0 && m2 == 0 {
      NotANumber(d2, d1, c.part, Decimal(m1));
    } else {
      DecimalInjective(d1, d2);
    }
  }

  lemma NotANumber(m: nat, n: nat, sep: string, x: string)
    requires !AllNumerals(sep)
    ensures Decimal(m) != Decimal(n) + (sep + x)
  {
    hide Decimal;
    DecimalReads(m);
    NumberEnds(n, sep, x);
    SomeOther(sep);
    var s := Decimal(n) + (sep + x);
    assert !IsDigit(s[FirstOther(s)]);
  }

  // ---------- disks with numbers ----------

  lemma NumberedName(c: Config, ctrlno: uint32, minor: nat)
    requires Sized(c) && Regular(c, minor) && c.disk.AsNumber?
    ensures EntryName(c, ctrlno, minor) ==
            Head(c, ctrlno) + (c.disk.prefix + (Decimal(DiskNumber(c, ctrlno, minor)) + Suffix(c, minor)))
  {
    hide Decimal, DiskNumber, Suffix, Head;
    var d := Decimal(DiskNumber(c, ctrlno, minor));
    assert Head(c, ctrlno) + (c.disk.prefix + d) + Suffix(c, minor) ==
           Head(c, ctrlno) + (c.disk.prefix + (d + Suffix(c, minor)));
  }

  lemma Behind(a: string, b: string, x: string, y: string)
    requires a + (b + x) == a + (b + y)
    ensures x == y
  {
    assert x == (a + (b + x))[|a| + |b|..] == (a + (b + y))[|a| + |b|..] == y;
  }

  /** Numbered disks on implicit controllers: if there are no partitions, or what stands before their
      numbers is not all digits, two devices share a name exactly if they are one, in 32 bits. */
  lemma NumberedEqualIff(c: Config, ctrl1: uint32, minor1: nat, ctrl2: uint32, minor2: nat)
    requires Sized(c) && c.ctrl.None? && c.disk.AsNumber? && (c.pcount == 1 || !AllNumerals(c.part))
    requires Regular(c, minor1) && Regular(c, minor2)
    ensures EntryName(c, ctrl1, minor1) == EntryName(c, ctrl2, minor2) <==>
            (DiskNumber(c, ctrl1, minor1) == DiskNumber(c, ctrl2, minor2) && PartOf(c, minor1) == PartOf(c, minor2))
  {
    hide Decimal, DiskNumber, EntryName, AllNumerals, Suffix, PartOf;
    var d1, d2 := DiskNumber(c, ctrl1, minor1), DiskNumber(c, ctrl2, minor2);
    NumberedName(c, ctrl1, minor1);
    NumberedName(c, ctrl2, minor2);
    if EntryName(c, ctrl1, minor1) == EntryName(c, ctrl2, minor2) {
      Behind(c.name, c.disk.prefix, Decimal(d1) + Suffix(c, minor1), Decimal(d2) + Suffix(c, minor2));
      NumberedSuffix(c, d1, minor1, d2, minor2);
    }
    SameSuffix(c, minor1, minor2);
  }

  lemma SameSuffix(c: Config, minor1: nat, minor2: nat)
    requires c.pcount > 0
    ensures PartOf(c, minor1) == PartOf(c, minor2) ==> Suffix(c, minor1) == Suffix(c, minor2)
  {
    hide Decimal;
  }

  lemma NumberedDiffer(c: Config, ctrl1: uint32, minor1: nat, ctrl2: uint32, minor2: nat)
    requires Sized(c) && c.ctrl.None? && c.disk.AsNumber? && (c.pcount == 1 || !AllNumerals(c.part))
    requires Device(c, ctrl1, minor1) && Device(c, ctrl2, minor2)
    ensures EntryName(c, ctrl1, minor1) == EntryName(c, ctrl2, minor2) ==> ctrl1 == ctrl2 && minor1 == minor2
  {
    hide DiskNumber, EntryName, PartOf;
    NumberedEqualIff(c, ctrl1, minor1, ctrl2, minor2);
    if EntryName(c, ctrl1, minor1) == EntryName(c, ctrl2, minor2) {
      SameDevice(c, ctrl1, minor1, ctrl2, minor2);
    }
  }

  // ---------- controllers in the name ----------

  /** An explicit controller keeps to its own disks. */
  lemma OwnDisks(c: Config, ctrlno: uint32, minor: nat)
    requires Sized(c) && Regular(c, minor) && c.ctrl.Some?
    ensures DiskNumber(c, ctrlno, minor) == minor / c.pcount < 0xFFFF_FFFF
  {
    SmallQuotient(minor, c.dcount, c.pcount);
  }

  lemma SameMinor(c: Config, minor1: nat, minor2: nat)
    requires c.pcount > 0 && minor1 / c.pcount == minor2 / c.pcount && PartOf(c, minor1) == PartOf(c, minor2)
    ensures minor1 == minor2
  {
    var p := c.pcount;
    assert minor1 == minor1 / p * p + minor1 % p;
    assert minor2 == minor2 / p * p + minor2 % p;
  }

  /** With letters for the disks names always differ. */
  lemma ExplicitLettersDiffer(c: Config, ctrl1: uint32, minor1: nat, ctrl2: uint32, minor2: nat)
    requires Sized(c) && c.ctrl.Some? && c.disk.AsLetters? && Regular(c, minor1) && Regular(c, minor2)
    ensures EntryName(c, ctrl1, minor1) == EntryName(c, ctrl2, minor2) ==> ctrl1 == ctrl2 && minor1 == minor2
  {
    hide Decimal, Letters, EntryName, Suffix, DiskNumber, PartOf, Number;
    var d1, d2 := minor1 / c.pcount, minor2 / c.pcount;
    OwnDisks(c, ctrl1, minor1);
    OwnDisks(c, ctrl2, minor2);
    ExplicitName(c, ctrl1, minor1);
    ExplicitName(c, ctrl2, minor2);
    LettersInjective(d1);
    LettersInjective(d2);
    if EntryName(c, ctrl1, minor1) == EntryName(c, ctrl2, minor2) {
      var x, y := Letters(d1) + Suffix(c, minor1), Letters(d2) + Suffix(c, minor2);
      Behind(c.name, c.ctrl.value, Decimal(ctrl1) + x, Decimal(ctrl2) + y);
      NumberThenLetters(ctrl1, ctrl2, Letters(d1), Suffix(c, minor1), Letters(d2), Suffix(c, minor2));
      SuffixesAgree(c, Letters(d1), minor1, Letters(d2), minor2);
      SameMinor(c, minor1, minor2);
    }
  }

  lemma ExplicitName(c: Config, ctrlno: uint32, minor: nat)
    requires Sized(c) && Regular(c, minor) && c.ctrl.Some? && c.disk.AsLetters?
    requires DiskNumber(c, ctrlno, minor) == minor / c.pcount < 0xFFFF_FFFF
    ensures EntryName(c, ctrlno, minor) ==
            c.name + (c.ctrl.value + (Decimal(ctrlno) + (Letters(minor / c.pcount) + Suffix(c, minor))))
  {
    hide Decimal, Letters, DiskNumber, Suffix;
    var l, t := Letters(minor / c.pcount), Suffix(c, minor);
    assert c.name + c.ctrl.value + Decimal(ctrlno) + l + t == c.name + (c.ctrl.value + (Decimal(ctrlno) + (l + t)));
  }

  lemma NumberThenLetters(m: nat, n: nat, a: string, x: string, b: string, y: string)
    requires AllLetters(a) && AllLetters(b) && a != "" && b != ""
    requires Decimal(m) + (a + x) == Decimal(n) + (b + y)
    ensures m == n && a + x == b + y
  {
    hide Decimal;
    DecimalReads(m);
    DecimalReads(n);
    var s, t := Decimal(m) + (a + x), Decimal(n) + (b + y);
    assert s[|Decimal(m)|] == a[0] && t[|Decimal(n)|] == b[0];
    FirstOtherIs(s, |Decimal(m)|);
    FirstOtherIs(t, |Decimal(n)|);
    assert Decimal(m) == s[..|Decimal(m)|] == t[..|Decimal(n)|] == Decimal(n);
    DecimalInjective(m, n);
    assert a + x == s[|Decimal(m)|..] == t[|Decimal(n)|..] == b + y;
  }

  /** With numbers they differ if what stands between the two numbers is not all digits, and what stands
      before the partition neither. */
  lemma ExplicitNumbersDiffer(c: Config, ctrl1: uint32, minor1: nat, ctrl2: uint32, minor2: nat)
    requires Sized(c) && c.ctrl.Some? && c.disk.AsNumber? && Regular(c, minor1) && Regular(c, minor2)
    requires !AllNumerals(c.disk.prefix) && (c.pcount == 1 || !AllNumerals(c.part))
    ensures EntryName(c, ctrl1, minor1) == EntryName(c, ctrl2, minor2) ==> ctrl1 == ctrl2 && minor1 == minor2
  {
    hide Decimal, EntryName, Suffix, DiskNumber, PartOf, AllNumerals, Head;
    var d1, d2 := minor1 / c.pcount, minor2 / c.pcount;
    OwnDisks(c, ctrl1, minor1);
    OwnDisks(c, ctrl2, minor2);
    NumberedName(c, ctrl1, minor1);
    NumberedName(c, ctrl2, minor2);
    if EntryName(c, ctrl1, minor1) == EntryName(c, ctrl2, minor2) {
      var x, y := Decimal(d1) + Suffix(c, minor1), Decimal(d2) + Suffix(c, minor2);
      ExplicitHead(c, ctrl1, c.disk.prefix + x);
      ExplicitHead(c, ctrl2, c.disk.prefix + y);
      Behind(c.name, c.ctrl.value, Decimal(ctrl1) + (c.disk.prefix + x), Decimal(ctrl2) + (c.disk.prefix + y));
      NumberThen(ctrl1, ctrl2, c.disk.prefix, x, y);
      NumberedSuffix(c, d1, minor1, d2, minor2);
      SameMinor(c, minor1, minor2);
    }
  }

  lemma ExplicitHead(c: Config, ctrlno: uint32, x: string)
    requires c.ctrl.Some?
    ensures Head(c, ctrlno) + x == c.name + (c.ctrl.value + (Decimal(ctrlno) + x))
  {
    hide Decimal;
  }

  // ---------- names that collide ----------

  predicate Numeral(s: string) {
    s != "" && AllNumerals(s) && (|s| > 1 ==> s[0] != '0')
  }

  function Reading(s: string): nat
    requires AllNumerals(s)
  {
    Value(10, NumeralDigits(s))
  }

  /** A numeral is the decimal of what it reads as. */
  lemma NumeralIsDecimal(s: string)
    requires Numeral(s)
    ensures Decimal(Reading(s)) == s
  {
    hide Symbol, Value, Standard;
    var ds := NumeralDigits(s);
    ValueStandard(10, ds);
    forall i | 0 <= i < |s| ensures Symbol(DECIMAL, ds[i]) == s[i] { DigitOf(ds[i]); }
  }

  /** The disk that reads as 1, the digits between, and 1 again. */
  function Clash(digits: string): nat
    requires AllNumerals(digits)
  {
    var s := "1" + digits + "1";
    assert forall i :: 0 <= i < |s| ==> s[i] == (if 0 < i < |s| - 1 then digits[i - 1] else '1');
    Reading(s)
  }

  lemma ClashIs(digits: string)
    requires AllNumerals(digits)
    ensures Decimal(Clash(digits)) == "1" + digits + "1" && Decimal(1) == "1" && Clash(digits) > 1
  {
    hide Reading;
    var s := "1" + digits + "1";
    assert forall i :: 0 <= i < |s| ==> s[i] == (if 0 < i < |s| - 1 then digits[i - 1] else '1');
    NumeralIsDecimal(s);
    NumeralIsDecimal("1");
    assert Reading("1") == 1 by { OneReads(); }
    OneDigitReads(0);
    OneDigitReads(1);
    assert |s| >= 2;
  }

  lemma OneReads()
    ensures Reading("1") == 1
  {
    var ds := NumeralDigits("1");
    assert ds == [1] && ds[..0] == [];
  }

  lemma AtDisk(c: Config, ctrlno: uint32, d: nat, p: nat)
    requires Sized(c) && d < c.dcount && p < c.pcount && c.ext.None? && (c.ctrl.None? ==> ctrlno == 0)
    ensures var minor := d * c.pcount + p;
            && Regular(c, minor) && DiskNumber(c, ctrlno, minor) == d && PartOf(c, minor) == p
  {
    var minor := d * c.pcount + p;
    DivModUnique(minor, c.pcount, d, p);
    MulMono(d + 1, c.dcount, c.pcount);
    assert (d + 1) * c.pcount == d * c.pcount + c.pcount;
    assert minor >= 0;
    DiskBound(c.dcount, c.pcount);
  }

  lemma DiskBound(d: nat, p: nat)
    requires p > 0
    ensures d <= d * p
  {
    MulMono(1, p, d);
  }

  /** If only digits stand before the number of a partition, then partition 1 of disk 1 has the name of
      a whole disk, if there is such a disk among the minors that have names: also on an explicit
      controller. */
  lemma PartitionsCollide(c: Config, ctrlno: uint32)
    requires Sized(c) && c.disk.AsNumber? && c.ext.None? && (c.ctrl.None? ==> ctrlno == 0)
    requires c.pcount > 1 && AllNumerals(c.part) && Clash(c.part) < c.dcount
    requires Clash(c.part) * c.pcount < IOC_MAXMINOR
    ensures var one, other := 1 * c.pcount + 1, Clash(c.part) * c.pcount;
            && Nameable(c, one) && Nameable(c, other) && one != other
            && EntryName(c, ctrlno, one) == EntryName(c, ctrlno, other)
  {
    hide Decimal, EntryName, DiskNumber, PartOf, Clash, Head, Regular;
    var n := Clash(c.part);
    ClashIs(c.part);
    AtDisk(c, ctrlno, 1, 1);
    AtDisk(c, ctrlno, n, 0);
    NumberedName(c, ctrlno, c.pcount + 1);
    NumberedName(c, ctrlno, n * c.pcount);
    assert "1" + (c.part + "1") == "1" + c.part + "1" && Decimal(n) + "" == Decimal(n);
    assert PartOf(c, c.pcount + 1) != PartOf(c, n * c.pcount);
    MulMono(2, n, c.pcount);
  }

  /** If only digits stand between the number of an explicit controller and that of a disk, then two
      controllers have disks of one name, if there are such disks among the minors that have names. */
  lemma ControllersCollide(c: Config)
    requires Sized(c) && c.ctrl.Some? && c.disk.AsNumber? && c.ext.None?
    requires AllNumerals(c.disk.prefix) && Clash(c.disk.prefix) < c.dcount
    requires Clash(c.disk.prefix) * c.pcount < IOC_MAXMINOR
    ensures var n := Clash(c.disk.prefix);
            && Nameable(c, n * c.pcount) && Nameable(c, 1 * c.pcount)
            && n != 1 && EntryName(c, 1, n * c.pcount) == EntryName(c, n, 1 * c.pcount)
  {
    hide Decimal, EntryName, DiskNumber, PartOf, Clash, Head, Regular;
    var p := c.disk.prefix;
    var n := Clash(p);
    ClashIs(p);
    AtDisk(c, 1, n, 0);
    AtDisk(c, n, 1, 0);
    NumberedName(c, 1, n * c.pcount);
    NumberedName(c, n, 1 * c.pcount);
    ExplicitHead(c, 1, p + (Decimal(n) + ""));
    ExplicitHead(c, n, p + ("1" + ""));
    assert "1" + (p + ("1" + p + "1" + "")) == "1" + p + "1" + (p + ("1" + ""));
    MulMono(1, n, c.pcount);
  }

  // ---------- the exact number of disks, for at most ten partitions ----------

  lemma {:induction false} ReadingOrder(a: seq<nat>, b: seq<nat>, t: seq<nat>)
    requires Value(10, a) <= Value(10, b)
    ensures Value(10, a + t) <= Value(10, b + t)
    decreases |t|
  {
    if t == [] {
      assert a + t == a && b + t == b;
    } else {
      var n := |t| - 1;
      ReadingOrder(a, b, t[..n]);
      assert (a + t)[..|a + t| - 1] == a + t[..n] && (b + t)[..|b + t| - 1] == b + t[..n];
    }
  }

  lemma DigitsAppend(s: string, t: string)
    requires AllNumerals(s) && AllNumerals(t)
    ensures AllNumerals(s + t) && NumeralDigits(s + t) == NumeralDigits(s) + NumeralDigits(t)
  {}

  lemma LastDigit(s: string, x: string)
    requires AllNumerals(s) && AllNumerals(x) && |x| == 1
    ensures AllNumerals(s + x) && Reading(s + x) == 10 * Reading(s) + (x[0] as int - '0' as int)
  {
    DigitsAppend(s, x);
    var ds := NumeralDigits(s + x);
    assert ds[..|ds| - 1] == NumeralDigits(s);
  }

  /** With at most ten partitions the names of the disks below the clash are all distinct: that number
      of disks is exactly what can be told apart. */
  lemma BelowClash(c: Config, d1: nat, minor1: nat, d2: nat, minor2: nat)
    requires 1 < c.pcount <= 10 && AllNumerals(c.part) && d1 < Clash(c.part) && d2 < Clash(c.part)
    requires Decimal(d1) + Suffix(c, minor1) == Decimal(d2) + Suffix(c, minor2)
    ensures d1 == d2 && PartOf(c, minor1) == PartOf(c, minor2)
  {
    hide Decimal, Clash, PartOf;
    var m1, m2 := PartOf(c, minor1), PartOf(c, minor2);
    SmallPart(c, minor1);
    SmallPart(c, minor2);
    assert Decimal(d1) + "" == Decimal(d1) && Decimal(d2) + "" == Decimal(d2);
    if m1 != 0 && m2 != 0 {
      var s, t := Decimal(d1) + (c.part + Decimal(m1)), Decimal(d2) + (c.part + Decimal(m2));
      assert |Decimal(d1)| == |Decimal(d2)|;
      assert Decimal(d1) == s[..|Decimal(d1)|] == t[..|Decimal(d2)|] == Decimal(d2);
      assert Decimal(m1) == s[|s| - 1..] == t[|t| - 1..] == Decimal(m2);
      DecimalInjective(d1, d2);
      DecimalInjective(m1, m2);
    } else if m1 == 0 && m2 != 0 {
      TooLarge(d1, d2, c.part, m2);
    } else if m1 != 0 && m2 == 0 {
      TooLarge(d2, d1, c.part, m1);
    } else {
      DecimalInjective(d1, d2);
    }
  }

  /** So for at most ten partitions, and digits before their numbers, names differ exactly as long as
      there are no more disks than the clash says: PartitionsCollide is the other half. */
  lemma FewPartitionsDiffer(c: Config, ctrl1: uint32, minor1: nat, ctrl2: uint32, minor2: nat)
    requires Sized(c) && c.ctrl.None? && c.disk.AsNumber? && 1 < c.pcount <= 10 && AllNumerals(c.part)
    requires Device(c, ctrl1, minor1) && Device(c, ctrl2, minor2)
    requires DiskNumber(c, ctrl1, minor1) < Clash(c.part) && DiskNumber(c, ctrl2, minor2) < Clash(c.part)
    ensures EntryName(c, ctrl1, minor1) == EntryName(c, ctrl2, minor2) ==> ctrl1 == ctrl2 && minor1 == minor2
  {
    hide Decimal, DiskNumber, EntryName, AllNumerals, Suffix, PartOf, Clash;
    var d1, d2 := DiskNumber(c, ctrl1, minor1), DiskNumber(c, ctrl2, minor2);
    NumberedName(c, ctrl1, minor1);
    NumberedName(c, ctrl2, minor2);
    if EntryName(c, ctrl1, minor1) == EntryName(c, ctrl2, minor2) {
      Behind(c.name, c.disk.prefix, Decimal(d1) + Suffix(c, minor1), Decimal(d2) + Suffix(c, minor2));
      BelowClash(c, d1, minor1, d2, minor2);
      SameDevice(c, ctrl1, minor1, ctrl2, minor2);
    }
  }

  lemma SmallPart(c: Config, minor: nat)
    requires 0 < c.pcount <= 10
    ensures 0 <= PartOf(c, minor) < 10 && |Decimal(PartOf(c, minor))| == 1
  {
    assert Standard(10, PartOf(c, minor)) == [PartOf(c, minor)];
  }

  /** A whole disk with the name of a partition is no smaller than the clash. */
  lemma TooLarge(n: nat, d: nat, part: string, m: nat)
    requires AllNumerals(part) && 0 < m < 10 && |Decimal(m)| == 1
    requires Decimal(n) == Decimal(d) + (part + Decimal(m))
    ensures n >= Clash(part)
  {
    hide Decimal, Reading;
    DecimalReads(n); DecimalReads(d); DecimalReads(m);
    var s := Decimal(d) + part;
    DigitsAppend(Decimal(d), part);
    LastDigit(s, Decimal(m));
    DigitsAppend("1", part);
    LastDigit("1" + part, "1");
    assert Decimal(n) == s + Decimal(m) && Decimal(n)[0] == Decimal(d)[0];
    NotZero(d);
    PrefixOrder(d, part);
    OneDigitReads(m);
    ReadingOf(n);
  }

  lemma ReadingOf(n: nat)
    ensures AllNumerals(Decimal(n)) && Reading(Decimal(n)) == n
  {
    hide Decimal;
    DecimalReads(n);
  }

  lemma OneDigitReads(m: nat)
    requires m < 10
    ensures Decimal(m) == [('0' as int + m) as char]
  {
    assert Standard(10, m) == [m];
    DigitOf(m);
  }

  lemma NotZero(d: nat)
    ensures Decimal(d) != "" && (Decimal(d)[0] != '0' ==> d > 0)
  {
    if d == 0 { OneDigitReads(0); }
    hide Decimal;
    DecimalReads(d);
  }

  lemma PrefixOrder(d: nat, part: string)
    requires d >= 1 && AllNumerals(part)
    ensures AllNumerals(Decimal(d)) && AllNumerals(Decimal(d) + part) && AllNumerals("1" + part)
    ensures Reading("1" + part) <= Reading(Decimal(d) + part)
  {
    hide Decimal;
    DecimalReads(d);
    OneReads();
    DigitsAppend(Decimal(d), part);
    DigitsAppend("1", part);
    ReadingOrder(NumeralDigits("1"), NumeralDigits(Decimal(d)), NumeralDigits(part));
  }
}
