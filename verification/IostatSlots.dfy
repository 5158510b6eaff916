/** iostat's table of devices: slots that are claimed, marked and swept while two arrays of
    samples take turns (iostat.c: set_entries_inactive, save_dev_stats, free_inactive_entries,
    write_stat, rw_io_stat_loop). */
module IostatSlots {
  import opened IostatListing
  import opened IostatBooks

  /** What is printed for a slot in use. */
  datatype Line = Line(name: string, now: IoStats, before: IoStats)

  /** The names given (none: all), and devices without any operation only if asked for. */
  predicate Wanted(name: string, now: IoStats, unfiltered: bool, dlist: seq<string>) {
    (dlist == [] || name in dlist) && (unfiltered || now.rdIos != 0 || now.wrIos != 0)
  }

  class Slots {
    const hdr: array<Hdr>
    const st0: array<IoStats>
    const st1: array<IoStats>
    var curr: nat

    ghost predicate Shape()
      reads this
    {
      curr < 2 && st0.Length == hdr.Length && st1.Length == hdr.Length && st0 != st1
    }

    /** st_iodev[curr] and st_iodev[!curr] */
    function Now(): array<IoStats>
      reads this
    {
      if curr == 0 then st0 else st1
    }

    function Before(): array<IoStats>
      reads this
    {
      if curr == 0 then st1 else st0
    }

    /** No slot in use has the name of another slot. */
    ghost predicate Distinct()
      reads hdr
    {
      forall i, j :: 0 <= i < hdr.Length && 0 <= j < hdr.Length && i != j && hdr[i].used ==> hdr[i].name != hdr[j].name
    }

    constructor (nr: nat)
      ensures hdr.Length == nr && curr == 1 && fresh(hdr) && fresh(st0) && fresh(st1) && Shape() && Distinct()
      ensures hdr[..] == After(nr, [])
    {
      hdr := new Hdr[nr](_ => Hdr(false, false, ""));
      st0 := new IoStats[nr](_ => ZERO);
      st1 := new IoStats[nr](_ => ZERO);
      curr := 1;
    }

    /** iostat.c: set_entries_inactive. */
    method SetEntriesInactive()
      modifies hdr
      ensures hdr[..] == Marked(old(hdr[..]))
    {
      for i := 0 to hdr.Length
        invariant forall k :: 0 <= k < hdr.Length ==>
                    hdr[k] == if k < i then old(hdr[k]).(active := false) else old(hdr[k])
      {
        hdr[i] := hdr[i].(active := false);
      }
    }

    /** iostat.c: free_inactive_entries. */
    method FreeInactiveEntries()
      modifies hdr
      ensures hdr[..] == Swept(old(hdr[..]))
    {
      for i := 0 to hdr.Length
        invariant forall k :: 0 <= k < hdr.Length ==>
                    hdr[k] == if k < i then old(hdr[k]).(used := old(hdr[k]).used && old(hdr[k]).active)
                              else old(hdr[k])
      {
        if !hdr[i].active {
          hdr[i] := hdr[i].(used := false);
        }
      }
    }

    /** iostat.c: save_dev_stats; the result is the slot, or the number of slots if there is none.
        A slot that is given to another device loses the sample of the scan before. */
    method SaveDevStats(dev: string, sample: IoStats) returns (i: nat)
      requires Shape() && Distinct()
      modifies hdr, st0, st1
      ensures Distinct() && i == SlotFor(old(hdr[..]), dev) && hdr[..] == Saved(old(hdr[..]), dev)
      ensures i < hdr.Length ==>
                Now()[i] == sample && Before()[i] == if old(hdr[i].name) == dev then old(Before()[i]) else ZERO
      ensures forall k :: 0 <= k < hdr.Length && k != i ==>
                Now()[k] == old(Now()[k]) && Before()[k] == old(Before()[k])
    {
      i := 0;
      while i < hdr.Length && hdr[i].name != dev
        invariant i <= hdr.Length && forall k :: 0 <= k < i ==> hdr[k].name != dev
      {
        i := i + 1;
      }
      if i == hdr.Length {
        i := 0;
        while i < hdr.Length && hdr[i].used
          invariant i <= hdr.Length && forall k :: 0 <= k < i ==> hdr[k].used
        {
          i := i + 1;
        }
        if i < hdr.Length {
          hdr[i] := hdr[i].(used := true, name := dev);
          Before()[i] := ZERO;
        }
      }
      assert i == SlotFor(old(hdr[..]), dev);
      if i < hdr.Length {
        hdr[i] := hdr[i].(active := true);
        Now()[i] := sample;
      }
    }

    /** Before a scan: the array to compare with holds these samples. */
    ghost predicate Compared(prev: map<string, IoStats>)
      reads this, hdr, st0, st1
    {
      && Shape() && Distinct()
      && forall i :: 0 <= i < hdr.Length && hdr[i].used ==> hdr[i].name in prev && Before()[i] == prev[hdr[i].name]
    }

    /** The slots and the arrays are as the books say. */
    ghost predicate Ready(b: Books)
      reads this, hdr, st0, st1
    {
      && Compared(b.prev) && Kept(b) && hdr[..] == b.h
      && forall i :: 0 <= i < hdr.Length && hdr[i].used ==> hdr[i].name in b.older && Now()[i] == b.older[hdr[i].name]
    }

    /** The slots hold what there is to report. */
    ghost predicate Shows(p: map<string, Pair>)
      reads this, hdr, st0, st1
    {
      && Shape() && Distinct() && p.Keys == Listed(hdr[..])
      && forall i :: 0 <= i < hdr.Length && hdr[i].used ==>
           hdr[i].name in p && p[hdr[i].name] == Pair(Now()[i], Before()[i])
    }

    /** Within a scan that has met the devices of `seen` so far; `was` are the slots in use at its start. */
    ghost predicate Scanning(seen: map<string, IoStats>, prev: map<string, IoStats>, was: seq<bool>)
      reads this, hdr, st0, st1
    {
      && Shape() && Distinct() && |was| == hdr.Length
      && forall i :: 0 <= i < hdr.Length && hdr[i].used ==>
           && (hdr[i].active ==> hdr[i].name in seen && Now()[i] == seen[hdr[i].name])
           && (!was[i] ==> hdr[i].active && Before()[i] == ZERO)
           && (was[i] ==> hdr[i].name in prev && Before()[i] == prev[hdr[i].name])
           && (was[i] && hdr[i].name in seen ==> hdr[i].active)
    }

    /** After a scan: a slot in use pairs its device's sample of this scan with the same device's
        sample of the scan before, or with zero if the device has just been given the slot. */
    ghost predicate Reported(seen: map<string, IoStats>, prev: map<string, IoStats>, was: seq<bool>)
      reads this, hdr, st0, st1
    {
      Scanning(seen, prev, was) && forall i :: 0 <= i < hdr.Length && hdr[i].used ==> hdr[i].active
    }

    ghost function InUse(): seq<bool>
      reads hdr
    {
      seq(hdr.Length, i requires 0 <= i < hdr.Length reads hdr => hdr[i].used)
    }

    /** Saving one more device keeps the books. */
    method SaveFound(f: Found, ghost seen: map<string, IoStats>, ghost prev: map<string, IoStats>,
                     ghost was: seq<bool>)
      requires Scanning(seen, prev, was)
      requires forall i :: 0 <= i < hdr.Length && was[i] ==> hdr[i].used
      modifies hdr, st0, st1
      ensures Scanning(seen[f.name := f.sample], prev, was) && hdr[..] == Saved(old(hdr[..]), f.name)
      ensures forall i :: 0 <= i < hdr.Length && was[i] ==> hdr[i].used && hdr[i].name == old(hdr[i].name)
    {
      var i := SaveDevStats(f.name, f.sample);
    }

    /** One reading of the statistics: mark, save every device found, sweep. */
    method Scan(scan: seq<Found>, ghost prev: map<string, IoStats>)
      requires Compared(prev)
      modifies hdr, st0, st1
      ensures Reported(Samples(scan), prev, old(InUse())) && hdr[..] == Scanned(old(hdr[..]), scan)
      ensures forall i :: 0 <= i < hdr.Length && old(InUse())[i] ==>
                hdr[i].name == old(hdr[i].name) && (hdr[i].used <==> hdr[i].name in Samples(scan))
    {
      hide Samples, SavedAll, Saved, Marked, Swept;
      ghost var was, h0 := InUse(), hdr[..];
      Begin(prev);
      ghost var marked := hdr[..];
      assert scan[..0] == [];
      NothingFound(marked);
      for k := 0 to |scan|
        invariant hdr[..] == SavedAll(marked, scan[..k])
        invariant Scanning(Samples(scan[..k]), prev, was)
        invariant forall i :: 0 <= i < hdr.Length && was[i] ==> hdr[i].used && hdr[i].name == old(hdr[i].name)
      {
        OneMoreFound(marked, scan, k);
        SaveFound(scan[k], Samples(scan[..k]), prev, was);
      }
      assert scan[..|scan|] == scan;
      End(Samples(scan), prev, was);
    }

    /** The marking before a scan. */
    method Begin(ghost prev: map<string, IoStats>)
      requires Compared(prev)
      modifies hdr
      ensures Scanning(map[], prev, old(InUse())) && hdr[..] == Marked(old(hdr[..]))
      ensures forall i :: 0 <= i < hdr.Length ==> hdr[i].used == old(hdr[i].used) && hdr[i].name == old(hdr[i].name)
    {
      SetEntriesInactive();
      assert forall i :: 0 <= i < hdr.Length ==> hdr[i] == hdr[..][i] == old(hdr[i]).(active := false);
    }

    /** The sweeping after it. */
    method End(ghost seen: map<string, IoStats>, ghost prev: map<string, IoStats>, ghost was: seq<bool>)
      requires Scanning(seen, prev, was) && forall i :: 0 <= i < hdr.Length && was[i] ==> hdr[i].used
      modifies hdr
      ensures Reported(seen, prev, was) && hdr[..] == Swept(old(hdr[..]))
      ensures forall i :: 0 <= i < hdr.Length && was[i] ==>
                hdr[i].name == old(hdr[i].name) && (hdr[i].used <==> hdr[i].name in seen)
    {
      FreeInactiveEntries();
      assert forall i :: 0 <= i < hdr.Length ==>
        hdr[i] == hdr[..][i] == old(hdr[i]).(used := old(hdr[i]).used && old(hdr[i]).active);
    }

    /** iostat.c: read_diskstats_stat and read_ppartitions_stat. If the file cannot be opened the sweep
        is left out as well: the slots in use stay in use, with the samples that both arrays had. */
    method ReadDiskstats(r: Reading, ghost b: Books)
      requires Ready(b)
      modifies hdr, st0, st1
      ensures Shows(Report(b, r)) && hdr[..] == HeadersAfter(b.h, r)
      ensures r.Failed? ==> st0[..] == old(st0[..]) && st1[..] == old(st1[..])
    {
      hide Samples, Scanned, Listed, Marked;
      TurnedKept(b, r);
      ghost var was := InUse();
      match r {
        case Opened(scan) =>
          Scan(scan, b.prev);
          forall i | 0 <= i < hdr.Length && hdr[i].used
            ensures (was[i] <==> hdr[i].name in Listed(b.h)) && hdr[i].name in Listed(hdr[..])
          {
            SameSlot(b.h, was, i, hdr[i].name);
            UsedListed(hdr[..], i);
          }
        case Failed =>
          SetEntriesInactive();
          MarkedSlots(b.h, hdr[..]);
      }
    }

    /** The lines of a report, slot by slot. */
    ghost function Lines(n: nat, unfiltered: bool, dlist: seq<string>): seq<Line>
      requires Shape() && n <= hdr.Length
      reads this, hdr, st0, st1
    {
      if n == 0 then []
      else
        var h, now := hdr[n - 1], Now()[n - 1];
        Lines(n - 1, unfiltered, dlist) +
        if h.used && Wanted(h.name, now, unfiltered, dlist)
        then [Line(h.name, now, Before()[n - 1])] else []
    }

    /** iostat.c: write_stat, the loop over the devices. */
    method WriteStat(unfiltered: bool, dlist: seq<string>) returns (lines: seq<Line>)
      requires Shape()
      ensures lines == Lines(hdr.Length, unfiltered, dlist)
    {
      lines := [];
      for i := 0 to hdr.Length
        invariant lines == Lines(i, unfiltered, dlist)
      {
        if hdr[i].used {
          if (dlist == [] || hdr[i].name in dlist) && (unfiltered || Now()[i].rdIos != 0 || Now()[i].wrIos != 0) {
            lines := lines + [Line(hdr[i].name, Now()[i], Before()[i])];
          }
        }
      }
    }

    ghost predicate Holds(n: nat, dev: string)
      requires n <= hdr.Length
      reads hdr
    {
      exists i :: 0 <= i < n && hdr[i].used && hdr[i].name == dev
    }

    /** Every line says of a device what there is to report, and no device has two. */
    lemma {:induction false} LinesRight(n: nat, unfiltered: bool, dlist: seq<string>, p: map<string, Pair>)
      requires Shows(p) && n <= hdr.Length
      ensures var lines := Lines(n, unfiltered, dlist);
              && (forall l :: l in lines ==> Holds(n, l.name) && RightLine(l, p, unfiltered, dlist))
              && (forall j, k :: 0 <= j < k < |lines| ==> lines[j].name != lines[k].name)
      decreases n
    {
      hide Listed;
      if n > 0 {
        LinesRight(n - 1, unfiltered, dlist, p);
        var shorter, all := Lines(n - 1, unfiltered, dlist), Lines(n, unfiltered, dlist);
        assert forall k :: 0 <= k < |shorter| ==> all[k] == shorter[k] && shorter[k] in shorter;
        forall l | l in all ensures Holds(n, l.name) && RightLine(l, p, unfiltered, dlist) {
          if l in shorter { assert Holds(n - 1, l.name); }
        }
        assert |all| > |shorter| ==> hdr[n - 1].used && all[|shorter|].name == hdr[n - 1].name;
      }
    }

    /** And nothing is left out that the options let through. */
    lemma {:induction false} LinesComplete(n: nat, unfiltered: bool, dlist: seq<string>, i: nat)
      requires Shape() && i < n <= hdr.Length
      requires hdr[i].used && Wanted(hdr[i].name, Now()[i], unfiltered, dlist)
      ensures Line(hdr[i].name, Now()[i], Before()[i]) in Lines(n, unfiltered, dlist)
      decreases n
    {
      if i < n - 1 { LinesComplete(n - 1, unfiltered, dlist, i); }
    }

    /** One turn of the main loop: read, report, and let the two arrays change places. */
    method Round(r: Reading, unfiltered: bool, dlist: seq<string>, ghost b: Books) returns (lines: seq<Line>)
      requires Ready(b)
      modifies this, hdr, st0, st1
      ensures Ready(Turned(b, r))
      ensures Prints(lines, Report(b, r), unfiltered, dlist)
    {
      hide RightLine, Wanted, Lines, HeadersAfter, Report, Listed;
      TurnedKept(b, r);
      ReadDiskstats(r, b);
      ghost var p := Report(b, r);
      lines := WriteStat(unfiltered, dlist);
      LinesRight(hdr.Length, unfiltered, dlist, p);
      forall dev | dev in p && Wanted(dev, p[dev].now, unfiltered, dlist) ensures HasLine(lines, dev) {
        var i := SlotOf(hdr[..], dev);
        LinesComplete(hdr.Length, unfiltered, dlist, i);
        assert Line(hdr[i].name, Now()[i], Before()[i]) in lines;
      }
      curr := 1 - curr;
    }
  }

  lemma SlotOf(h: seq<Hdr>, dev: string) returns (i: nat)
    requires dev in Listed(h)
    ensures i < |h| && h[i].used && h[i].name == dev
  {
    i :| 0 <= i < |h| && h[i].used && h[i].name == dev;
  }

  /** iostat.c: rw_io_stat_loop. For any run of readings, with devices appearing, vanishing and coming
      back at will and some readings failing, every report prints one line for each device that is then
      listed and wanted, and no other, with the two samples that the readings make of it. */
  method RwIoStatLoop(nr: nat, rs: seq<Reading>, unfiltered: bool, dlist: seq<string>)
    returns (reports: seq<seq<Line>>)
    ensures |reports| == |rs|
    ensures forall k :: 0 <= k < |rs| ==> Prints(reports[k], ReportAt(nr, rs, k), unfiltered, dlist)
    ensures forall k :: 0 <= k < |rs| ==> HasLines(reports[k], ReportAt(nr, rs, k), unfiltered, dlist)
  {
    hide Prints, HasLines, Report, Turned, Listed, After;
    var t := new Slots(nr);
    reports := [];
    assert rs[..0] == [];
    NoneListed(nr);
    BooksKept(nr, []);
    for k := 0 to |rs|
      invariant fresh(t.hdr) && fresh(t.st0) && fresh(t.st1) && fresh(t)
      invariant |reports| == k && t.Ready(BooksAfter(nr, rs[..k]))
      invariant forall j :: 0 <= j < k ==> Prints(reports[j], ReportAt(nr, rs, j), unfiltered, dlist)
    {
      var lines := t.Round(rs[k], unfiltered, dlist, BooksAfter(nr, rs[..k]));
      Step(nr, rs, k);
      reports := reports + [lines];
    }
    forall k | 0 <= k < |rs| ensures HasLines(reports[k], ReportAt(nr, rs, k), unfiltered, dlist) {
      PrintsLines(reports[k], ReportAt(nr, rs, k), unfiltered, dlist);
    }
  }

  /** A device has a line exactly if it is to be reported, is in the list, if there is one, and has had any
      operation, unless all are asked for. */
  ghost predicate HasLines(lines: seq<Line>, p: map<string, Pair>, unfiltered: bool, dlist: seq<string>) {
    forall dev :: HasLine(lines, dev) <==>
      && dev in p && (dlist != [] ==> dev in dlist)
      && (!unfiltered ==> p[dev].now.rdIos > 0 || p[dev].now.wrIos > 0)
  }

  lemma PrintsLines(lines: seq<Line>, p: map<string, Pair>, unfiltered: bool, dlist: seq<string>)
    requires Prints(lines, p, unfiltered, dlist)
    ensures HasLines(lines, p, unfiltered, dlist)
  {
    forall dev | HasLine(lines, dev)
      ensures dev in p && Wanted(dev, p[dev].now, unfiltered, dlist)
    {
      var l :| l in lines && l.name == dev;
      assert RightLine(l, p, unfiltered, dlist);
    }
  }

  lemma NothingFound(h: seq<Hdr>)
    ensures SavedAll(h, []) == h && Samples([]) == map[]
  {}

  lemma OneMoreFound(h: seq<Hdr>, scan: seq<Found>, k: nat)
    requires k < |scan|
    ensures SavedAll(h, scan[..k + 1]) == Saved(SavedAll(h, scan[..k]), scan[k].name)
    ensures Samples(scan[..k + 1]) == Samples(scan[..k])[scan[k].name := scan[k].sample]
  {
    assert scan[..k + 1][..k] == scan[..k] && scan[..k + 1][k] == scan[k];
  }

  lemma NoneListed(nr: nat)
    ensures forall i :: 0 <= i < nr ==> !After(nr, [])[i].used
  {}

  /** A slot in use that had the name before is the slot that has it now. */
  lemma SameSlot(h: seq<Hdr>, was: seq<bool>, i: nat, name: string)
    requires |was| == |h| && i < |h| && (forall j :: 0 <= j < |h| ==> was[j] == h[j].used)
    requires was[i] ==> h[i].name == name
    requires !was[i] ==> forall j :: 0 <= j < |h| && was[j] ==> h[j].name != name
    ensures was[i] <==> name in Listed(h)
  {}

  lemma UsedListed(h: seq<Hdr>, i: nat)
    requires i < |h| && h[i].used
    ensures h[i].name in Listed(h)
  {}

  lemma MarkedSlots(h: seq<Hdr>, h': seq<Hdr>)
    requires h' == Marked(h)
    ensures |h'| == |h| && forall i :: 0 <= i < |h| ==> h'[i].used == h[i].used && h'[i].name == h[i].name
  {}

  ghost predicate RightLine(l: Line, p: map<string, Pair>, unfiltered: bool, dlist: seq<string>) {
    l.name in p && p[l.name] == Pair(l.now, l.before) && Wanted(l.name, l.now, unfiltered, dlist)
  }

  /** One line for each device to be reported that is wanted, and no other. */
  ghost predicate Prints(lines: seq<Line>, p: map<string, Pair>, unfiltered: bool, dlist: seq<string>) {
    && (forall l :: l in lines ==> RightLine(l, p, unfiltered, dlist))
    && (forall j, k :: 0 <= j < k < |lines| ==> lines[j].name != lines[k].name)
    && (forall dev :: dev in p && Wanted(dev, p[dev].now, unfiltered, dlist) ==> HasLine(lines, dev))
  }

  ghost predicate HasLine(lines: seq<Line>, dev: string) {
    exists l :: l in lines && l.name == dev
  }
}
