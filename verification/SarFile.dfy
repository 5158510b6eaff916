/** From the bytes of an activity file to the report of sar -f, and from the runs of sadc to that report
    (sa.h: struct file_stats; sa_common.c: prep_file_for_reading; sar.c: read_stats_from_file). */
module SarFile {
  import opened Bytes
  import opened Framing
  import opened SaFormat
  import opened Slices
  import opened SarPass
  import opened SarReplay
  import opened Collecting
  import opened Sadc

  const UPTIME: nat := 0
  const UPTIME0: nat := 16

  /** An unsigned long long of file_stats. */
  function U64At(stats: seq<byte>, at: nat): (n: uint64) {
    if at + 8 <= |stats| then
      FromU32(stats[at..at + 4]) + 0x1_0000_0000 * FromU32(stats[at + 4..at + 8])
    else 0
  }

  /** Which counter and which gauge of file_stats are looked at, and how sar tells the time of day. */
  datatype Fields = Fields(counterAt: nat, gaugeAt: nat, clock: seq<byte> -> Tod)

  function Decoded(f: Fields, r: Record): (x: Rec)
    ensures x.Dummy? <==> HasType(r.stats, R_DUMMY)
  {
    if HasType(r.stats, R_DUMMY) then Dummy(f.clock(r.stats))
    else Stats(U64At(r.stats, UPTIME), U64At(r.stats, UPTIME0), f.clock(r.stats),
               U64At(r.stats, f.counterAt), U64At(r.stats, f.gaugeAt))
  }

  /** An unsigned long long in memory. */
  function U64(n: uint64): (b: seq<byte>)
    ensures |b| == 8
  {
    U32(n % 0x1_0000_0000) + U32(n / 0x1_0000_0000)
  }

  lemma U64Reads(stats: seq<byte>, at: nat, n: uint64)
    requires at + 8 <= |stats| && stats[at..at + 8] == U64(n)
    ensures U64At(stats, at) == n
  {
    hide U32, FromU32;
    var low, high := n % 0x1_0000_0000, n / 0x1_0000_0000;
    DecodeU32(low);
    DecodeU32(high);
    assert stats[at..at + 4] == U64(n)[..4] == U32(low);
    assert stats[at + 4..at + 8] == U64(n)[4..] == U32(high);
  }

  /** A file_stats structure that holds the uptime in its bytes 0 to 7 and that of the first processor in
      its bytes 16 to 23 gives a record with these, and with the counter and the gauge looked at. */
  lemma DecodedReads(f: Fields, r: Record, u: uint64, v: uint64, counter: uint64, gauge: uint64)
    requires |r.stats| >= 24 && r.stats[0..8] == U64(u) && r.stats[16..24] == U64(v)
    requires f.counterAt + 8 <= |r.stats| && r.stats[f.counterAt..f.counterAt + 8] == U64(counter)
    requires f.gaugeAt + 8 <= |r.stats| && r.stats[f.gaugeAt..f.gaugeAt + 8] == U64(gauge)
    ensures !HasType(r.stats, R_DUMMY) ==> Decoded(f, r) == Stats(u, v, f.clock(r.stats), counter, gauge)
    ensures HasType(r.stats, R_DUMMY) ==> Decoded(f, r) == Dummy(f.clock(r.stats))
  {
    hide U64At, U64;
    U64Reads(r.stats, 0, u);
    U64Reads(r.stats, 16, v);
    U64Reads(r.stats, f.counterAt, counter);
    U64Reads(r.stats, f.gaugeAt, gauge);
  }

  function AllDecoded(f: Fields, recs: seq<Record>): (xs: seq<Rec>)
    ensures |xs| == |recs|
  {
    seq(|recs|, i requires 0 <= i < |recs| => Decoded(f, recs[i]))
  }

  /** Reading a whole file, record by record, is what the view of it says. */
  method ReadFile(content: seq<byte>) returns (v: FileView)
    ensures v == View(content)
  {
    hide DecodeHeader, ReadRecord, FileBlocks;
    if |content| == 0 { return Empty; }
    if |content| < FILE_HDR_SIZE { return Foreign; }
    var h := DecodeHeader(content[..FILE_HDR_SIZE]);
    if h.magic != SA_MAGIC { return Foreign; }
    var f, rest, recs, more := FileFrame(h), content[FILE_HDR_SIZE..], [], true;
    var clean := true;
    assert [] + ReadAll(f, rest).recs == ReadAll(f, rest).recs;
    while more
      invariant more ==> clean
      invariant var all := ReadAll(f, content[FILE_HDR_SIZE..]); var left := ReadAll(f, rest);
                if more then all == Listing(recs + left.recs, left.clean) else all == Listing(recs, clean)
      decreases |rest|, more
    {
      ReadAllStep(f, rest);
      match ReadRecord(f, rest) {
        case Eof =>
          more, clean := false, |rest| == 0;
          assert recs + [] == recs;
        case Truncated =>
          more, clean := false, false;
          assert recs + [] == recs;
        case Got(r, tail) =>
          var left := ReadAll(f, tail);
          assert recs + ([r] + left.recs) == recs + [r] + left.recs;
          recs, rest := recs + [r], tail;
      }
    }
    v := if clean then Activity(h, recs) else Damaged(h);
  }

  lemma ReadAllStep(f: Frame, b: seq<byte>)
    ensures var g := ReadRecord(f, b);
            && (g.Eof? ==> ReadAll(f, b) == Listing([], b == []))
            && (g.Truncated? ==> ReadAll(f, b) == Listing([], false))
            && (g.Got? ==>
                  && |g.rest| < |b|
                  && ReadAll(f, b) == Listing([g.rec] + ReadAll(f, g.rest).recs, ReadAll(f, g.rest).clean))
  {}

  /** How the report on a file begins: with nothing at all if it is not a whole activity file. */
  datatype Answer = Refused | Printed(out: seq<Out>, complete: bool)

  /** What sar -f prints of the records of a file: the replay, up to the first average over a null interval. */
  ghost predicate Reports(a: Answer, o: SarPass.Options, f: Fields, h: Header, recs: seq<Record>)
    requires ValidOptions(o)
  {
    var smp := o.(procs := h.proc);
    var all := Replay(smp, AllDecoded(f, recs));
    && a.Printed?
    && a.complete == AllProper(all, smp.procs > 0)
    && (if a.complete then a.out == all && Restarts(a.out) == Markers(AllDecoded(f, recs))
        else Halts(0, a.out, all, smp.procs > 0))
  }

  /** sar -f on the bytes of a file. */
  method SarFromFile(content: seq<byte>, o: SarPass.Options, f: Fields) returns (a: Answer)
    requires ValidOptions(o)
    ensures a.Refused? <==> !View(content).Activity?
    ensures View(content).Activity? ==> Reports(a, o, f, View(content).hdr, View(content).recs)
  {
    hide View, Replay, AllProper, Halts, Restarts, Markers;
    var v := ReadFile(content);
    match v {
      case Activity(h, recs) =>
        var sar := new Sar(AllDecoded(f, recs), o.(procs := h.proc));
        var ok := sar.ReadStatsFromFile();
        a := Printed(sar.out, ok);
      case _ =>
        a := Refused;
    }
  }

  /** From end to end: whatever runs of sadc there have been, sar -f prints the replay of what they have
      made of the file. */
  method CollectAndReport(fs: FileSystem, runs: seq<Run>, name: string, o: SarPass.Options, f: Fields)
    returns (a: Answer)
    requires Whole(fs.Views()) && ValidOptions(o) && forall k :: 0 <= k < |runs| ==> ValidRun(runs[k])
    modifies fs
    ensures fs.Views() == AfterRuns(old(fs.Views()), runs)
    ensures var v := Find(AfterRuns(old(fs.Views()), runs), name);
            if v.Activity? then Reports(a, o, f, v.hdr, v.recs) else a.Refused?
  {
    hide View, AfterRuns, Reports;
    RunAll(fs, runs);
    var content := if name in fs.files then fs.files[name] else [];
    a := SarFromFile(content, o, f);
  }
}
