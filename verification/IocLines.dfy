/** What the lines of the configuration file mean, one after the other and looked at as a whole
    (ioconf.c: ioc_init, ioc_name). */
module IocLines {
  import opened Bytes
  import opened IocConv
  import opened IocNames

  /** A line of the configuration file after sscanf. */
  datatype Line =
    | Blank
    | Indirect(major: uint32, indirect: uint32, ctrlno: uint32, desc: Option<string>)
    | Direct(major: uint32, ctrlno: uint32, cfg: Config)
    | Exception(major: uint32, minor: uint32, name: string)
    | Malformed

  /** What the parser does not check itself: an indirect record whose referent is there is stored at
      its major, outside the array or not, and left without a configuration if it is its own referent. */
  predicate Harmful(l: Line, known: set<int>) {
    && l.Indirect? && 0 < l.indirect < MAX_BLKDEV && l.indirect in known
    && (l.major > MAX_BLKDEV || l.major == l.indirect)
  }

  /** What the lines of a file mean: a configuration and a controller number for each major.
      Majors of one group, named by the line that brought it in, share one configuration. */
  datatype Slot = Slot(group: nat, cfg: Config, ctrlno: uint32)

  function Decorated(c: Config, l: Line): Config
    requires l.Exception?
  {
    if c.ext.None? then c.(ext := Some((l.minor, l.name))) else c
  }

  function Apply(a: map<int, Slot>, k: nat, l: Line): map<int, Slot> {
    match l
    case Indirect(major, indirect, ctrlno, _) =>
      if 0 < indirect < MAX_BLKDEV && indirect in a && major < MAX_BLKDEV then
        a[major := a[indirect].(ctrlno := ctrlno)]
      else a
    case Direct(major, ctrlno, cfg) =>
      if 0 < major < MAX_BLKDEV then a[major := Slot(k, cfg.(ext := None), ctrlno)] else a
    case Exception(major, minor, name) =>
      if 0 < major < MAX_BLKDEV && major in a then
        map i | i in a :: if a[i].group == a[major].group then a[i].(cfg := Decorated(a[i].cfg, l)) else a[i]
      else a
    case _ => a
  }

  function Parsed(lines: seq<Line>): map<int, Slot> {
    if lines == [] then map[]
    else Apply(Parsed(lines[..|lines| - 1]), |lines| - 1, lines[|lines| - 1])
  }

  /** Direct records with a major in range. */
  function Directs(lines: seq<Line>): nat {
    if lines == [] then 0
    else
      var l := lines[|lines| - 1];
      Directs(lines[..|lines| - 1]) + if IsDirect(l) then 1 else 0
  }

  predicate IsDirect(l: Line) {
    l.Direct? && 0 < l.major < MAX_BLKDEV
  }

  lemma {:induction false} NoDirects(lines: seq<Line>)
    ensures Directs(lines) == 0 <==> forall k :: 0 <= k < |lines| ==> !IsDirect(lines[k])
    decreases |lines|
  {
    if lines != [] {
      var n := |lines| - 1;
      NoDirects(lines[..n]);
      assert forall k :: 0 <= k < n ==> lines[..n][k] == lines[k];
    }
  }

  // ---------- the same, looking back ----------

  /** The direct record that the configuration of a major comes from: its own, or that of the major it
      refers to at that point, whichever was last. */
  function Source(lines: seq<Line>, m: int): (g: Option<nat>)
    ensures g.Some? ==> g.value < |lines| && IsDirect(lines[g.value])
    decreases |lines|, 0
  {
    if lines == [] then None
    else
      var n := |lines| - 1;
      var l, before := lines[n], lines[..n];
      if IsDirect(l) && l.major == m then Some(n)
      else if Refers(before, l, m) then Source(before, l.indirect)
      else Source(before, m)
  }

  /** An indirect record for m whose referent has a configuration. */
  predicate Refers(before: seq<Line>, l: Line, m: int)
    decreases |before|, 1
  {
    && l.Indirect? && l.major == m < MAX_BLKDEV && 0 < l.indirect < MAX_BLKDEV
    && Source(before, l.indirect).Some?
  }

  /** The controller number is that of the last record for the major. */
  function Controller(lines: seq<Line>, m: int): uint32 {
    if lines == [] then 0
    else
      var n := |lines| - 1;
      var l, before := lines[n], lines[..n];
      if (IsDirect(l) && l.major == m) || Refers(before, l, m) then l.ctrlno else Controller(before, m)
  }

  /** Line k is an exception for the configuration that line g brought in. */
  predicate ExceptionFor(lines: seq<Line>, g: nat, k: nat)
    requires k < |lines|
  {
    lines[k].Exception? && 0 < lines[k].major < MAX_BLKDEV && Source(lines[..k], lines[k].major) == Some(g)
  }

  /** The first of them. */
  function FirstException(lines: seq<Line>, g: nat): (x: Option<nat>)
    ensures x.Some? ==> x.value < |lines| && ExceptionFor(lines, g, x.value)
    ensures forall j :: 0 <= j < (if x.Some? then x.value else |lines|) ==> !ExceptionFor(lines, g, j)
  {
    if lines == [] then None
    else
      var n := |lines| - 1;
      var x := FirstException(lines[..n], g);
      assert forall j :: 0 <= j < n ==> lines[..n][..j] == lines[..j];
      assert forall j :: 0 <= j < n ==> (ExceptionFor(lines[..n], g, j) <==> ExceptionFor(lines, g, j));
      if x.Some? then x else if ExceptionFor(lines, g, n) then Some(n) else None
  }

  /** Later exceptions change nothing. */
  lemma {:induction false} FirstStays(lines: seq<Line>, more: seq<Line>, g: nat)
    requires FirstException(lines, g).Some?
    ensures FirstException(lines + more, g) == FirstException(lines, g)
    decreases |more|
  {
    hide ExceptionFor;
    if more == [] {
      assert lines + more == lines;
    } else {
      var n := |more| - 1;
      assert (lines + more)[..|lines + more| - 1] == lines + more[..n];
      FirstStays(lines, more[..n], g);
    }
  }

  function ExtOf(lines: seq<Line>, g: nat): Option<(uint32, string)> {
    var x := FirstException(lines, g);
    if x.Some? then Some((lines[x.value].minor, lines[x.value].name)) else None
  }

  /** Reading line by line comes to the same. */
  lemma {:induction false} ParsedIs(lines: seq<Line>, m: int)
    ensures m in Parsed(lines) <==> Source(lines, m).Some?
    ensures m in Parsed(lines) ==>
              var g := Source(lines, m).value;
              Parsed(lines)[m] == Slot(g, lines[g].cfg.(ext := ExtOf(lines, g)), Controller(lines, m))
    decreases |lines|
  {
    hide FirstException, ExceptionFor;
    if lines != [] {
      var n := |lines| - 1;
      var l, before := lines[n], lines[..n];
      ParsedIs(before, m);
      match l
      case Direct(_, _, _) =>
        var g := Source(lines, m);
        if g.Some? { ExtStep(lines, g.value); }
        NotYet(before, n);
      case Indirect(_, indirect, _, _) =>
        ParsedIs(before, indirect);
        var g := Source(lines, m);
        if g.Some? { ExtStep(lines, g.value); }
      case Exception(major, _, _) =>
        ParsedIs(before, major);
        var g := Source(lines, m);
        if g.Some? { ExtStep(lines, g.value); }
      case _ =>
        var g := Source(lines, m);
        if g.Some? { ExtStep(lines, g.value); }
    }
  }

  lemma ExtStep(lines: seq<Line>, g: nat)
    requires lines != []
    ensures var n := |lines| - 1; var l, before := lines[n], ExtOf(lines[..n], g);
            ExtOf(lines, g) ==
            if before.None? && l.Exception? && 0 < l.major < MAX_BLKDEV && Source(lines[..n], l.major) == Some(g)
            then Some((l.minor, l.name)) else before
  {}

  lemma NotYet(lines: seq<Line>, g: nat)
    requires g >= |lines|
    ensures FirstException(lines, g).None?
  {}

  // ---------- names that can be read ----------

  /** An ordinary decimal numeral. */
  predicate Numeral(s: string, n: nat) {
    s != "" && AllNumerals(s) && Value(10, NumeralDigits(s)) == n && (|s| > 1 ==> s[0] != '0')
  }

  predicate CtrlText(s: string, c: Config, ctrlno: uint32) {
    match c.ctrl
    case None => s == ""
    case Some(fmt) => fmt <= s && Numeral(s[|fmt|..], ctrlno)
  }

  /** The number of a disk as letters, or in decimal; the largest number of all has no letters. */
  predicate DiskText(s: string, c: Config, disk: uint32) {
    match c.disk
    case AsLetters => if disk == 0xFFFF_FFFF then s == "" else s != "" && AllLetters(s) && Number(s) == disk
    case AsNumber(prefix) => prefix <= s && Numeral(s[|prefix|..], disk)
  }

  predicate PartText(s: string, c: Config, part: nat) {
    if part == 0 then s == "" else c.part <= s && Numeral(s[|c.part|..], part)
  }

  /** The parts of a name: the base, the controller, the disk, counted on over implicit controllers, and
      the partition. */
  ghost predicate ReadsAs(name: string, c: Config, ctrlno: uint32, minor: nat)
    requires c.pcount > 0
  {
    var number := (minor / c.pcount + (if c.ctrl.None? then ctrlno * c.dcount else 0)) % 0x1_0000_0000;
    exists ctl, disk, part ::
      && name == c.name + ctl + disk + part
      && CtrlText(ctl, c, ctrlno) && DiskText(disk, c, number) && PartText(part, c, minor % c.pcount)
  }

  lemma DecimalIs(n: nat, prefix: string)
    ensures var s := prefix + Decimal(n); prefix <= s && Numeral(s[|prefix|..], n)
  {
    hide Decimal;
    DecimalReads(n);
    assert (prefix + Decimal(n))[|prefix|..] == Decimal(n);
  }

  lemma EntryReads(c: Config, ctrlno: uint32, minor: nat)
    requires c.pcount > 0 && InRange(c, minor) && !(c.ext.Some? && c.ext.value.0 == minor)
    ensures ReadsAs(EntryName(c, ctrlno, minor), c, ctrlno, minor)
  {
    hide Decimal, Letters, Number, AllLetters, Numeral;
    var d, p := DiskNumber(c, ctrlno, minor), PartOf(c, minor);
    var ctl := match c.ctrl case None => "" case Some(fmt) => fmt + Decimal(ctrlno);
    var disk, part := DiskName(c.disk, d), Suffix(c, minor);
    if c.ctrl.Some? { DecimalIs(ctrlno, c.ctrl.value); }
    if c.disk.AsNumber? { DecimalIs(d, c.disk.prefix); } else { LettersInjective(d); }
    DecimalIs(p, c.part);
    assert CtrlText(ctl, c, ctrlno) && DiskText(disk, c, d) && PartText(part, c, p);
    assert EntryName(c, ctrlno, minor) == c.name + ctl + disk + part;
  }

  /** The name of a device, from the lines of the file. Without a configuration, or with a minor that its
      configuration does not have, it is "nodev". The minor of the first exception has the name given
      there, for every major with that configuration; all others have a name made of parts. */
  ghost predicate NamedBy(name: string, lines: seq<Line>, major: int, minor: nat) {
    var g := Source(lines, major);
    if g.None? then name == "nodev"
    else
      var c, x := lines[g.value].cfg, FirstException(lines, g.value);
      if minor >= c.dcount * c.pcount % 0x1_0000_0000 then name == "nodev"
      else if x.Some? && lines[x.value].minor == minor then name == lines[x.value].name
      else c.pcount > 0 && ReadsAs(name, c, Controller(lines, major), minor)
  }

  lemma NameMeans(lines: seq<Line>, major: int, minor: nat)
    ensures var a := Parsed(lines);
            var name := if major in a then EntryName(a[major].cfg, a[major].ctrlno, minor) else K_NODEV;
            NamedBy(name, lines, major, minor)
  {
    hide Parsed, Source, Controller, FirstException, ReadsAs;
    var a := Parsed(lines);
    ParsedIs(lines, major);
    if major in a {
      var g := Source(lines, major).value;
      var c := a[major].cfg;
      if c.pcount > 0 && InRange(c, minor) && !(c.ext.Some? && c.ext.value.0 == minor) {
        EntryReads(c, a[major].ctrlno, minor);
        SameReading(EntryName(c, a[major].ctrlno, minor), c, lines[g].cfg, a[major].ctrlno, minor);
      }
    }
  }

  lemma SameReading(name: string, c: Config, d: Config, ctrlno: uint32, minor: nat)
    requires c.pcount > 0 && d == c.(ext := d.ext) && ReadsAs(name, c, ctrlno, minor)
    ensures ReadsAs(name, d, ctrlno, minor)
  {
    hide Numeral, AllLetters, Number;
    var number: uint32 := (minor / c.pcount + (if c.ctrl.None? then ctrlno * c.dcount else 0)) % 0x1_0000_0000;
    var ctl, disk, part :|
      && name == c.name + ctl + disk + part
      && CtrlText(ctl, c, ctrlno) && DiskText(disk, c, number) && PartText(part, c, minor % c.pcount);
    assert CtrlText(ctl, d, ctrlno) && DiskText(disk, d, number) && PartText(part, d, minor % c.pcount);
  }
}
