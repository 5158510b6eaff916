/** What iostat reports, as a function of its readings of the statistics file, some of which may fail
    (iostat.c: read_diskstats_stat, write_stat, rw_io_stat_loop). */
module IostatBooks {
  import opened IostatListing

  /** One reading: the devices found, or a file that could not be opened. */
  datatype Reading = Opened(scan: seq<Found>) | Failed

  /** What is printed about a device: this sample and the one to compare it with. */
  datatype Pair = Pair(now: IoStats, before: IoStats)

  /** The headers, and what the two arrays hold for the devices listed: `prev` in the array that comes
      next as the one to compare with, `older` in the one that is written next. */
  datatype Books = Books(h: seq<Hdr>, prev: map<string, IoStats>, older: map<string, IoStats>)

  function HeadersAfter(h: seq<Hdr>, r: Reading): (h': seq<Hdr>)
    ensures |h'| == |h|
  {
    match r
    case Opened(scan) => Scanned(h, scan)
    case Failed => Marked(h)
  }

  /** The report on a reading. If the file cannot be opened nothing is read and nothing swept. */
  function Report(b: Books, r: Reading): map<string, Pair> {
    match r
    case Opened(scan) =>
      map dev | dev in Listed(Scanned(b.h, scan)) && dev in Samples(scan) ::
        Pair(Samples(scan)[dev], if dev in Listed(b.h) && dev in b.prev then b.prev[dev] else ZERO)
    case Failed =>
      map dev | dev in Listed(b.h) && dev in b.prev && dev in b.older :: Pair(b.older[dev], b.prev[dev])
  }

  /** Then the arrays change places. */
  function Turned(b: Books, r: Reading): Books {
    var p := Report(b, r);
    Books(HeadersAfter(b.h, r), map dev | dev in p :: p[dev].now, map dev | dev in p :: p[dev].before)
  }

  function BooksAfter(nr: nat, rs: seq<Reading>): (b: Books)
    ensures |b.h| == nr
  {
    if rs == [] then Books(After(nr, []), map[], map[])
    else Turned(BooksAfter(nr, rs[..|rs| - 1]), rs[|rs| - 1])
  }

  function ReportAt(nr: nat, rs: seq<Reading>, k: nat): map<string, Pair>
    requires k < |rs|
  {
    Report(BooksAfter(nr, rs[..k]), rs[k])
  }

  // ---------- who is in the books ----------

  lemma {:induction false} SavedAllFound(h: seq<Hdr>, scan: seq<Found>)
    requires OnlyFound(h, {})
    ensures OnlyFound(SavedAll(h, scan), Names(scan))
    decreases |scan|
  {
    hide Saved, OnlyFound;
    if scan != [] {
      var n := |scan| - 1;
      NamesStep(scan);
      SavedAllFound(h, scan[..n]);
      SavedFound(SavedAll(h, scan[..n]), scan[n].name, Names(scan[..n]));
    } else {
      assert Names(scan) == {};
    }
  }

  lemma ListedFound(h: seq<Hdr>, scan: seq<Found>)
    ensures Listed(Scanned(h, scan)) <= Names(scan)
  {
    SavedAllFound(Marked(h), scan);
    hide SavedAll, Names;
  }

  lemma MarkedListed(h: seq<Hdr>)
    ensures Listed(Marked(h)) == Listed(h) && Marked(Marked(h)) == Marked(h)
  {
    var h' := Marked(h);
    forall x ensures x in Listed(h') <==> x in Listed(h) {
      if x in Listed(h) { var i :| 0 <= i < |h| && h[i].used && h[i].name == x; assert h'[i].used && h'[i].name == x; }
    }
  }

  /** The books are about the devices listed. */
  predicate Kept(b: Books) {
    b.prev.Keys == b.older.Keys == Listed(b.h)
  }

  lemma TurnedKept(b: Books, r: Reading)
    requires Kept(b)
    ensures Kept(Turned(b, r)) && Report(b, r).Keys == Listed(HeadersAfter(b.h, r))
  {
    hide Scanned, Marked, Listed;
    match r
    case Opened(scan) => ListedFound(b.h, scan);
    case Failed => MarkedListed(b.h);
  }

  lemma {:induction false} BooksKept(nr: nat, rs: seq<Reading>)
    ensures Kept(BooksAfter(nr, rs))
    decreases |rs|
  {
    hide Turned;
    if rs != [] {
      BooksKept(nr, rs[..|rs| - 1]);
      TurnedKept(BooksAfter(nr, rs[..|rs| - 1]), rs[|rs| - 1]);
    }
  }

  lemma Step(nr: nat, rs: seq<Reading>, k: nat)
    requires k < |rs|
    ensures BooksAfter(nr, rs[..k + 1]) == Turned(BooksAfter(nr, rs[..k]), rs[k])
  {
    assert rs[..k + 1][..k] == rs[..k] && rs[..k + 1][k] == rs[k];
  }

  /** The scans among the readings. */
  function Scans(rs: seq<Reading>): seq<seq<Found>> {
    if rs == [] then []
    else Scans(rs[..|rs| - 1]) + match rs[|rs| - 1] case Opened(scan) => [scan] case Failed => []
  }

  /** A reading that fails changes nothing in the list. */
  lemma {:induction false} ListedAfter(nr: nat, rs: seq<Reading>)
    ensures Marked(BooksAfter(nr, rs).h) == Marked(After(nr, Scans(rs)))
    ensures Listed(BooksAfter(nr, rs).h) == Listed(After(nr, Scans(rs)))
    decreases |rs|
  {
    hide Listed, Marked, Report;
    var h, g := BooksAfter(nr, rs).h, After(nr, Scans(rs));
    if rs != [] {
      var n := |rs| - 1;
      ListedAfter(nr, rs[..n]);
      var h0, g0 := BooksAfter(nr, rs[..n]).h, After(nr, Scans(rs[..n]));
      match rs[n]
      case Opened(scan) => AfterStep(nr, Scans(rs[..n]), scan);
      case Failed =>
        assert Scans(rs[..n]) + [] == Scans(rs[..n]);
        MarkedListed(h0);
    }
    MarkedListed(h);
    MarkedListed(g);
  }

  // ---------- what the reports say ----------

  /** After two readings in a row that succeed, or a first one, the report is right: it lists the devices
      that are then listed, with their samples of this scan beside those of the scan before, if they
      were listed then, and beside zero if not. */
  lemma RightReport(nr: nat, rs: seq<Reading>, k: nat, dev: string)
    requires k < |rs| && rs[k].Opened? && (k == 0 || rs[k - 1].Opened?)
    ensures var was, now := Listed(BooksAfter(nr, rs[..k]).h), Listed(BooksAfter(nr, rs[..k + 1]).h);
            && (dev in ReportAt(nr, rs, k) <==> dev in now)
            && (dev in now ==> dev in Samples(rs[k].scan) && ReportAt(nr, rs, k)[dev].now == Samples(rs[k].scan)[dev])
            && (dev in now && dev !in was ==> ReportAt(nr, rs, k)[dev].before == ZERO)
            && (dev in now && dev in was ==>
                  && k > 0 && dev in Samples(rs[k - 1].scan)
                  && ReportAt(nr, rs, k)[dev].before == Samples(rs[k - 1].scan)[dev])
  {
    hide Scanned, Listed, Samples;
    var b := BooksAfter(nr, rs[..k]);
    BooksKept(nr, rs[..k]);
    TurnedKept(b, rs[k]);
    Step(nr, rs, k);
    if k > 0 {
      var b0 := BooksAfter(nr, rs[..k - 1]);
      BooksKept(nr, rs[..k - 1]);
      TurnedKept(b0, rs[k - 1]);
      Step(nr, rs, k - 1);
    }
  }

  /** After a reading that fails, the report is the one before with the two samples of every device
      exchanged. */
  lemma FailedReport(nr: nat, rs: seq<Reading>, k: nat, dev: string)
    requires k < |rs| && rs[k].Failed?
    ensures k == 0 ==> dev !in ReportAt(nr, rs, k)
    ensures k > 0 ==>
              && (dev in ReportAt(nr, rs, k) <==> dev in ReportAt(nr, rs, k - 1))
              && (dev in ReportAt(nr, rs, k) ==>
                    var p := ReportAt(nr, rs, k - 1)[dev]; ReportAt(nr, rs, k)[dev] == Pair(p.before, p.now))
  {
    hide Scanned, Listed, Samples;
    var b := BooksAfter(nr, rs[..k]);
    BooksKept(nr, rs[..k]);
    TurnedKept(b, rs[k]);
    if k > 0 {
      BooksKept(nr, rs[..k - 1]);
      TurnedKept(BooksAfter(nr, rs[..k - 1]), rs[k - 1]);
      Step(nr, rs, k - 1);
    } else {
      assert rs[..0] == [];
    }
  }

  /** And the next reading that succeeds compares with what that report called the present: for a device
      that stays listed, a sample from before the last good report. */
  lemma AfterFailure(nr: nat, rs: seq<Reading>, k: nat, dev: string)
    requires 0 < k < |rs| && rs[k].Opened? && rs[k - 1].Failed?
    requires dev in ReportAt(nr, rs, k) && dev in Listed(BooksAfter(nr, rs[..k]).h)
    ensures k > 1 && dev in ReportAt(nr, rs, k - 1) && dev in ReportAt(nr, rs, k - 2)
    ensures ReportAt(nr, rs, k)[dev].before == ReportAt(nr, rs, k - 1)[dev].now == ReportAt(nr, rs, k - 2)[dev].before
  {
    hide Scanned, Listed, Samples;
    BooksKept(nr, rs[..k]);
    BooksKept(nr, rs[..k - 1]);
    TurnedKept(BooksAfter(nr, rs[..k - 1]), rs[k - 1]);
    Step(nr, rs, k - 1);
    FailedReport(nr, rs, k - 1, dev);
  }
}
