/** Device names from major and minor numbers (ioconf.c: ioc_name, ioc_iswhole). */
module IocNames {
  import opened Arith
  import opened Bytes
  import opened IocConv

  // ---------- letters and digits as strings ----------

  predicate IsLetter(c: char) { 'a' <= c <= 'z' }
  predicate IsDigit(c: char) { '0' <= c <= '9' }

  predicate AllLetters(s: string) {
    forall i :: 0 <= i < |s| ==> IsLetter(s[i])
  }

  predicate AllNumerals(s: string) {
    forall i :: 0 <= i < |s| ==> IsDigit(s[i])
  }

  lemma LetterOf(d: nat)
    requires 1 <= d <= 26
    ensures Symbol(LETTERS, d) == ('a' as int + d - 1) as char
  {
    if d == 26 { assert d % 26 == 0; } else { assert d % 26 == d; }
    assert LETTERS == ['z'] + "abcdefghijklmnopqrstuvwxy";
    assert d < 26 ==> LETTERS[d] == "abcdefghijklmnopqrstuvwxy"[d - 1];
  }

  lemma DigitOf(d: nat)
    requires d < 10
    ensures Symbol(DECIMAL, d) == ('0' as int + d) as char
  {}

  function LetterDigits(s: string): (ds: seq<nat>)
    requires AllLetters(s)
    ensures |ds| == |s| && AllDigits(26, ds)
  {
    seq(|s|, i requires 0 <= i < |s| => s[i] as int - 'a' as int + 1)
  }

  lemma SpellLetters(ds: seq<nat>)
    requires AllDigits(26, ds)
    ensures AllLetters(Spell(LETTERS, ds)) && LetterDigits(Spell(LETTERS, ds)) == ds
  {
    hide Symbol;
    var s := Spell(LETTERS, ds);
    forall i | 0 <= i < |s| ensures IsLetter(s[i]) && s[i] as int - 'a' as int + 1 == ds[i] { LetterOf(ds[i]); }
  }

  lemma LettersSpelled(s: string)
    requires AllLetters(s)
    ensures Spell(LETTERS, LetterDigits(s)) == s
  {
    hide Symbol;
    var ds := LetterDigits(s);
    forall i | 0 <= i < |s| ensures Symbol(LETTERS, ds[i]) == s[i] { LetterOf(ds[i]); }
  }

  /** The number that a string of letters stands for. */
  function Number(s: string): int
    requires AllLetters(s)
  {
    Value(26, LetterDigits(s)) - 1
  }

  /** Every number has its own nonempty string of letters, ... */
  lemma LettersInjective(n: nat)
    ensures Letters(n) != "" && AllLetters(Letters(n)) && Number(Letters(n)) == n
  {
    ZerolessValue(26, n + 1);
    SpellLetters(Zeroless(26, n + 1));
  }

  /** ... and every such string is the letters of a number: nothing is left out. */
  lemma LettersOnto(s: string)
    requires s != "" && AllLetters(s)
    ensures Number(s) >= 0 && Letters(Number(s)) == s
  {
    hide Zeroless, Value, Ones, Spell, LetterDigits;
    var ds := LetterDigits(s);
    ValueRange(26, ds);
    OnesGrow(26, 1, |ds|);
    OnesOne(26);
    ValueZeroless(26, ds);
    LettersSpelled(s);
  }

  ghost predicate Before(s: string, t: string) {
    |s| < |t| || (|s| == |t| && exists k :: 0 <= k < |s| && s[..k] == t[..k] && s[k] < t[k])
  }

  /** Names sort as their numbers do: shorter ones first, then alphabetically. */
  lemma LettersOrder(m: nat, n: nat)
    ensures m < n <==> Before(Letters(m), Letters(n))
  {
    hide Zeroless, ShortLex, Before, Spell;
    ZerolessOrder(26, m + 1, n + 1);
    ZerolessValue(26, m + 1);
    ZerolessValue(26, n + 1);
    SpelledOrder(Zeroless(26, m + 1), Zeroless(26, n + 1));
  }

  lemma SpelledOrder(a: seq<nat>, b: seq<nat>)
    requires AllDigits(26, a) && AllDigits(26, b)
    ensures ShortLex(a, b) <==> Before(Spell(LETTERS, a), Spell(LETTERS, b))
  {
    hide Symbol;
    var s, t := Spell(LETTERS, a), Spell(LETTERS, b);
    if |a| == |b| {
      forall k | 0 <= k < |a|
        ensures s[k] < t[k] <==> a[k] < b[k]
        ensures s[..k] == t[..k] <==> a[..k] == b[..k]
      {
        SamePrefix(a, b, k);
        LetterOf(a[k]);
        LetterOf(b[k]);
      }
      if Earlier(a, b) {
        var k :| 0 <= k < |a| && a[..k] == b[..k] && a[k] < b[k];
        assert s[..k] == t[..k] && s[k] < t[k];
      }
      if Before(s, t) {
        var k :| 0 <= k < |s| && s[..k] == t[..k] && s[k] < t[k];
        assert a[..k] == b[..k] && a[k] < b[k];
      }
    }
  }

  lemma SamePrefix(a: seq<nat>, b: seq<nat>, k: nat)
    requires AllDigits(26, a) && AllDigits(26, b) && k <= |a| && k <= |b|
    ensures Spell(LETTERS, a)[..k] == Spell(LETTERS, b)[..k] <==> a[..k] == b[..k]
  {
    hide Symbol;
    var s, t := Spell(LETTERS, a), Spell(LETTERS, b);
    if s[..k] == t[..k] {
      forall i | 0 <= i < k ensures a[i] == b[i] {
        assert s[i] == s[..k][i] == t[..k][i] == t[i];
        LetterOf(a[i]); LetterOf(b[i]);
      }
    }
    if a[..k] == b[..k] {
      forall i | 0 <= i < k ensures s[i] == t[i] { assert a[i] == a[..k][i] == b[..k][i] == b[i]; }
    }
  }

  function NumeralDigits(s: string): (ds: seq<nat>)
    requires AllNumerals(s)
    ensures |ds| == |s|
  {
    seq(|s|, i requires 0 <= i < |s| => s[i] as int - '0' as int)
  }

  /** Decimal is ordinary decimal: digits, no leading zero, and reading it gives the number back. */
  lemma DecimalReads(n: nat)
    ensures Decimal(n) != "" && AllNumerals(Decimal(n))
    ensures Value(10, NumeralDigits(Decimal(n))) == n
    ensures |Decimal(n)| > 1 ==> Decimal(n)[0] != '0'
  {
    hide Symbol;
    StandardValue(10, n);
    var ds, s := Standard(10, n), Decimal(n);
    forall i | 0 <= i < |s| ensures IsDigit(s[i]) && s[i] as int - '0' as int == ds[i] { DigitOf(ds[i]); }
    assert NumeralDigits(s) == ds;
    assert n == 0 ==> |ds| == 1;
  }

  // ---------- names ----------

  const MAX_BLKDEV: nat := 255
  const IOC_MAXMINOR: nat := 255
  const K_NODEV: string := "nodev"

  /** How the disk is written: as letters, or as a number after a fixed string. */
  datatype DiskStyle = AsLetters | AsNumber(prefix: string)

  /** struct blk_config after parsing. `ctrl` is None if the controller does not appear in the
      name; `ext` is the one minor with a name of its own. */
  datatype Config = Config(name: string, ctrl: Option<string>, disk: DiskStyle, part: string,
                           dcount: uint32, pcount: uint32, ext: Option<(uint32, string)>)

  /** Number of the disk, computed in 32 bits; implicit controllers number their disks on. */
  function DiskNumber(c: Config, ctrlno: uint32, minor: nat): uint32
    requires c.pcount > 0
  {
    (minor / c.pcount + (if c.ctrl.None? then ctrlno * c.dcount else 0)) % 0x1_0000_0000
  }

  function DiskName(style: DiskStyle, disk: uint32): string {
    match style
    case AsLetters => if disk == 0xFFFF_FFFF then "" else Letters(disk)
    case AsNumber(prefix) => prefix + Decimal(disk)
  }

  function Head(c: Config, ctrlno: uint32): string {
    match c.ctrl
    case None => c.name
    case Some(fmt) => c.name + fmt + Decimal(ctrlno)
  }

  /** The partition within its disk, 0 for the disk itself. */
  function PartOf(c: Config, minor: nat): nat
    requires c.pcount > 0
  {
    minor % c.pcount
  }

  predicate IsWhole(c: Config, minor: nat)
    requires c.pcount > 0
  {
    PartOf(c, minor) == 0
  }

  function Suffix(c: Config, minor: nat): string
    requires c.pcount > 0
  {
    if IsWhole(c, minor) then "" else c.part + Decimal(PartOf(c, minor))
  }

  predicate InRange(c: Config, minor: nat) {
    minor < c.dcount * c.pcount % 0x1_0000_0000
  }

  /** ioc_name for an entry of the table. */
  function EntryName(c: Config, ctrlno: uint32, minor: nat): string {
    if c.pcount == 0 || !InRange(c, minor) then K_NODEV
    else if c.ext.Some? && c.ext.value.0 == minor then c.ext.value.1
    else Head(c, ctrlno) + DiskName(c.disk, DiskNumber(c, ctrlno, minor)) + Suffix(c, minor)
  }

  function CountLetters(s: string): nat {
    if s == "" then 0 else CountLetters(s[1..]) + if IsLetter(s[0]) then 1 else 0
  }

  lemma {:induction false} CountAppend(s: string, t: string)
    ensures CountLetters(s + t) == CountLetters(s) + CountLetters(t)
    decreases |s|
  {
    if s == "" {
      assert s + t == t;
    } else {
      assert (s + t)[1..] == s[1..] + t;
      CountAppend(s[1..], t);
    }
  }

  lemma {:induction false} CountAll(s: string)
    ensures AllLetters(s) ==> CountLetters(s) == |s|
    ensures AllNumerals(s) ==> CountLetters(s) == 0
    decreases |s|
  {
    if s != "" { CountAll(s[1..]); }
  }

  /** Letters, a fixed string and a number can be taken apart again, whatever the fixed string. */
  lemma TakeApart(a: string, b: string, part: string, m: nat, n: nat)
    requires AllLetters(a) && AllLetters(b)
    requires a + (part + Decimal(m)) == b + (part + Decimal(n))
    ensures a == b && m == n
  {
    hide Decimal;
    DecimalReads(m);
    DecimalReads(n);
    CountAll(a); CountAll(b); CountAll(Decimal(m)); CountAll(Decimal(n));
    CountAppend(part, Decimal(m)); CountAppend(part, Decimal(n));
    CountAppend(a, part + Decimal(m)); CountAppend(b, part + Decimal(n));
    assert |a| == |b|;
    var s, t := a + (part + Decimal(m)), b + (part + Decimal(n));
    assert a == s[..|a|] == t[..|b|] == b;
    assert Decimal(m) == s[|a| + |part|..] == t[|b| + |part|..] == Decimal(n);
  }

  /** The partition of a disk is not a whole disk, however it is spelt. */
  lemma WholeOrPart(a: string, b: string, part: string, n: nat)
    requires AllLetters(a) && AllLetters(b)
    ensures a != b + (part + Decimal(n))
  {
    hide Decimal;
    DecimalReads(n);
    var s := b + (part + Decimal(n));
    var d := Decimal(n);
    assert s[|s| - 1] == d[|d| - 1];
    assert IsDigit(s[|s| - 1]);
  }

  /** A configuration with as many minors as it says. */
  predicate Sized(c: Config) {
    c.pcount > 0 && c.dcount * c.pcount < 0x1_0000_0000
  }

  /** One with letters and implicit controllers. */
  predicate Lettered(c: Config) {
    c.ctrl.None? && c.disk.AsLetters? && Sized(c)
  }

  /** A minor of the configuration, not the exceptional one. */
  predicate Regular(c: Config, minor: nat) {
    minor < c.dcount * c.pcount && (c.ext.Some? ==> c.ext.value.0 != minor)
  }

  /** One that ioc_name does not refuse. */
  predicate Nameable(c: Config, minor: nat) {
    Regular(c, minor) && minor < IOC_MAXMINOR
  }

  /** One whose disk number fits in 32 bits. */
  predicate Device(c: Config, ctrlno: uint32, minor: nat) {
    Regular(c, minor) && (ctrlno + 1) * c.dcount < 0x1_0000_0000
  }

  lemma DiskNumberExact(c: Config, ctrlno: uint32, minor: nat)
    requires Sized(c) && c.ctrl.None? && Device(c, ctrlno, minor)
    ensures 0 <= minor / c.pcount < c.dcount
    ensures DiskNumber(c, ctrlno, minor) == ctrlno * c.dcount + minor / c.pcount < 0xFFFF_FFFF
  {
    SmallQuotient(minor, c.dcount, c.pcount);
    assert (ctrlno + 1) * c.dcount == ctrlno * c.dcount + c.dcount;
    var n := ctrlno * c.dcount;
    assert n >= 0;
  }

  lemma SmallQuotient(n: nat, d: nat, p: nat)
    requires p > 0 && n < d * p
    ensures 0 <= n / p < d
  {
    var q := n / p;
    assert n == q * p + n % p;
    if q >= d { MulMono(d, q, p); }
    if q < 0 { MulMono(q, -1, p); }
  }

  lemma SameDevice(c: Config, ctrl1: uint32, minor1: nat, ctrl2: uint32, minor2: nat)
    requires Sized(c) && c.ctrl.None? && Device(c, ctrl1, minor1) && Device(c, ctrl2, minor2)
    requires DiskNumber(c, ctrl1, minor1) == DiskNumber(c, ctrl2, minor2) && PartOf(c, minor1) == PartOf(c, minor2)
    ensures ctrl1 == ctrl2 && minor1 == minor2
  {
    hide DiskNumber, Device;
    var d, p := c.dcount, c.pcount;
    DiskNumberExact(c, ctrl1, minor1);
    DiskNumberExact(c, ctrl2, minor2);
    var q1, q2, n := minor1 / p, minor2 / p, ctrl1 * d + minor1 / p;
    DivModUnique(n, d, ctrl1, q1);
    DivModUnique(n, d, ctrl2, q2);
    assert minor1 == q1 * p + minor1 % p;
    assert minor2 == q2 * p + minor2 % p;
  }

  /** Without any bound on disk numbers: two devices share a name exactly if their disk numbers
      agree in 32 bits and their partitions agree. */
  lemma NamesEqualIff(c: Config, ctrl1: uint32, minor1: nat, ctrl2: uint32, minor2: nat)
    requires Lettered(c) && Regular(c, minor1) && Regular(c, minor2)
    ensures EntryName(c, ctrl1, minor1) == EntryName(c, ctrl2, minor2) <==>
            (DiskNumber(c, ctrl1, minor1) == DiskNumber(c, ctrl2, minor2) && PartOf(c, minor1) == PartOf(c, minor2))
  {
    hide Decimal, DiskNumber, EntryName, PartOf, DiskName;
    var d1, d2 := DiskNumber(c, ctrl1, minor1), DiskNumber(c, ctrl2, minor2);
    var a, b := DiskName(c.disk, d1), DiskName(c.disk, d2);
    RegularName(c, ctrl1, minor1);
    RegularName(c, ctrl2, minor2);
    DiskNamesDiffer(c, d1, d2);
    if EntryName(c, ctrl1, minor1) == EntryName(c, ctrl2, minor2) {
      var x, y := a + Suffix(c, minor1), b + Suffix(c, minor2);
      assert x == (c.name + x)[|c.name|..] == (c.name + y)[|c.name|..] == y;
      SuffixesAgree(c, a, minor1, b, minor2);
    }
  }

  lemma RegularName(c: Config, ctrlno: uint32, minor: nat)
    requires Lettered(c) && Regular(c, minor)
    ensures EntryName(c, ctrlno, minor) == c.name + (DiskName(c.disk, DiskNumber(c, ctrlno, minor)) + Suffix(c, minor))
  {
    hide Letters, Decimal, DiskNumber, Suffix, DiskName;
    var l := DiskName(c.disk, DiskNumber(c, ctrlno, minor));
    assert c.name + l + Suffix(c, minor) == c.name + (l + Suffix(c, minor));
  }

  lemma DiskNamesDiffer(c: Config, d1: uint32, d2: uint32)
    requires c.disk.AsLetters?
    ensures var a, b := DiskName(c.disk, d1), DiskName(c.disk, d2);
            AllLetters(a) && AllLetters(b) && (a == b <==> d1 == d2)
  {
    hide Letters, Number;
    LettersInjective(d1);
    LettersInjective(d2);
  }

  /** Among all devices whose majors share one configuration with letters and implicit
      controllers, no two have the same name, as long as the disk numbers fit in 32 bits. */
  lemma NamesDiffer(c: Config, ctrl1: uint32, minor1: nat, ctrl2: uint32, minor2: nat)
    requires Lettered(c) && Device(c, ctrl1, minor1) && Device(c, ctrl2, minor2)
    ensures EntryName(c, ctrl1, minor1) == EntryName(c, ctrl2, minor2) ==> ctrl1 == ctrl2 && minor1 == minor2
  {
    hide DiskNumber, EntryName, PartOf;
    NamesEqualIff(c, ctrl1, minor1, ctrl2, minor2);
    if EntryName(c, ctrl1, minor1) == EntryName(c, ctrl2, minor2) {
      SameDevice(c, ctrl1, minor1, ctrl2, minor2);
    }
  }

  lemma NameParts(c: Config, ctrlno: uint32, minor: nat)
    requires Lettered(c) && Device(c, ctrlno, minor)
    ensures EntryName(c, ctrlno, minor) == c.name + (Letters(DiskNumber(c, ctrlno, minor)) + Suffix(c, minor))
  {
    hide Letters, Decimal, DiskNumber, Suffix;
    DiskNumberExact(c, ctrlno, minor);
    var l := Letters(DiskNumber(c, ctrlno, minor));
    assert c.name + l + Suffix(c, minor) == c.name + (l + Suffix(c, minor));
  }

  lemma SuffixesAgree(c: Config, a: string, minor1: nat, b: string, minor2: nat)
    requires c.pcount > 0 && AllLetters(a) && AllLetters(b)
    requires a + Suffix(c, minor1) == b + Suffix(c, minor2)
    ensures a == b && PartOf(c, minor1) == PartOf(c, minor2)
  {
    hide Decimal, PartOf;
    var m1, m2 := PartOf(c, minor1), PartOf(c, minor2);
    assert a + "" == a && b + "" == b;
    if m1 != 0 && m2 != 0 {
      TakeApart(a, b, c.part, m1, m2);
    } else if m1 == 0 && m2 != 0 {
      WholeOrPart(a, b, c.part, m2);
    } else if m1 != 0 && m2 == 0 {
      WholeOrPart(b, a, c.part, m1);
    }
  }

  /** A name ends in a digit exactly if it is not that of a whole disk. */
  lemma SuffixIffPartition(c: Config, ctrlno: uint32, minor: nat)
    requires Lettered(c) && Device(c, ctrlno, minor)
    ensures var s := EntryName(c, ctrlno, minor); s != "" && (IsDigit(s[|s| - 1]) <==> !IsWhole(c, minor))
  {
    hide Letters, Decimal, DiskNumber, EntryName, Device, PartOf;
    var d := DiskNumber(c, ctrlno, minor);
    LettersInjective(d);
    DecimalReads(PartOf(c, minor));
    NameParts(c, ctrlno, minor);
    var s, l, p := EntryName(c, ctrlno, minor), Letters(d), Suffix(c, minor);
    if IsWhole(c, minor) {
      assert s[|s| - 1] == l[|l| - 1];
    } else {
      var n := Decimal(PartOf(c, minor));
      assert s[|s| - 1] == n[|n| - 1];
    }
  }

  /** Without the bound on disk numbers they can share one too: two controllers 2^32 disks apart. */
  lemma OverflowCollides()
    ensures var c := Config("x", None, AsLetters, "", 0x1_0000, 1, None);
            EntryName(c, 0, 0) == EntryName(c, 0x1_0000, 0)
  {
    hide Letters;
    var c := Config("x", None, AsLetters, "", 0x1_0000, 1, None);
    assert DiskNumber(c, 0, 0) == 0 && DiskNumber(c, 0x1_0000, 0) == 0;
  }
}
