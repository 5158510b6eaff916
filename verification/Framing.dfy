/** Records without delimiters: the reader knows where one ends only from the sizes it
    was told beforehand (sar.c: sa_read, read_stat_bunch; sa_common.c: sa_fread). */
module Framing {
  import opened Bytes

  const RECORD_TYPE: nat := 432 // offset of record_type in struct file_stats
  const R_STATS: byte := 1
  const R_DUMMY: byte := 2
  const R_LAST_STATS: byte := 3

  /** Size of the file_stats structure and of the blocks that follow it. */
  datatype Frame = Frame(stSize: nat, blocks: seq<nat>)

  datatype Record = Record(stats: seq<byte>, extra: seq<seq<byte>>)

  predicate HasType(stats: seq<byte>, rtype: byte) {
    |stats| > RECORD_TYPE && stats[RECORD_TYPE] == rtype
  }

  /** A restart marker has no further blocks. */
  function BlocksAfter(f: Frame, stats: seq<byte>): seq<nat> {
    if HasType(stats, R_DUMMY) then [] else f.blocks
  }

  predicate WellShaped(f: Frame, r: Record) {
    0 < f.stSize == |r.stats| && Fits(r.extra, BlocksAfter(f, r.stats))
  }

  predicate AllShaped(f: Frame, recs: seq<Record>) {
    forall i :: 0 <= i < |recs| ==> WellShaped(f, recs[i])
  }

  function EncodeRecord(r: Record): seq<byte> {
    r.stats + Flatten(r.extra)
  }

  function EncodeRecords(recs: seq<Record>): seq<byte> {
    if recs == [] then [] else EncodeRecord(recs[0]) + EncodeRecords(recs[1..])
  }

  lemma {:induction false} EncodeAppend(a: seq<Record>, b: seq<Record>)
    ensures EncodeRecords(a + b) == EncodeRecords(a) + EncodeRecords(b)
    decreases |a|
  {
    if a == [] {
      assert a + b == b;
    } else {
      assert (a + b)[1..] == a[1..] + b;
      EncodeAppend(a[1..], b);
    }
  }

  /** One step of sar on the rest of its input: the structure (SOFT_SIZE: an immediate end
      of file is no error), then the other blocks (HARD_SIZE). */
  datatype ReadResult = Eof | Truncated | Got(rec: Record, rest: seq<byte>)

  function ReadRecord(f: Frame, b: seq<byte>): (r: ReadResult)
    ensures r.Got? ==> |r.rest| < |b|
  {
    if |b| == 0 || f.stSize == 0 then Eof
    else if |b| < f.stSize then Truncated
    else
      var stats, rest := b[..f.stSize], b[f.stSize..];
      var sizes := BlocksAfter(f, stats);
      if |rest| < Sum(sizes) then Truncated
      else Got(Record(stats, Split(rest[..Sum(sizes)], sizes)), rest[Sum(sizes)..])
  }

  datatype Listing = Listing(recs: seq<Record>, clean: bool)

  /** Reading on to the end, as sar does over a file. */
  function ReadAll(f: Frame, b: seq<byte>): Listing
    decreases |b|
  {
    match ReadRecord(f, b)
    case Eof => Listing([], |b| == 0)
    case Truncated => Listing([], false)
    case Got(rec, rest) =>
      var l := ReadAll(f, rest);
      Listing([rec] + l.recs, l.clean)
  }

  lemma ReadEncoded(f: Frame, r: Record, rest: seq<byte>)
    requires WellShaped(f, r)
    ensures ReadRecord(f, EncodeRecord(r) + rest) == Got(r, rest)
  {
    var b := EncodeRecord(r) + rest;
    var sizes := BlocksAfter(f, r.stats);
    SplitFlatten(r.extra, sizes);
    assert b[..f.stSize] == r.stats;
    var tail := b[f.stSize..];
    assert tail == Flatten(r.extra) + rest;
    assert tail[..Sum(sizes)] == Flatten(r.extra);
    assert tail[Sum(sizes)..] == rest;
  }

  lemma ReadSound(f: Frame, b: seq<byte>)
    requires ReadRecord(f, b).Got?
    ensures var g := ReadRecord(f, b); WellShaped(f, g.rec) && b == EncodeRecord(g.rec) + g.rest
  {
    var rec := ReadRecord(f, b).rec;
    var sizes := BlocksAfter(f, rec.stats);
    var tail := b[f.stSize..];
    FlattenSplit(tail[..Sum(sizes)], sizes);
    assert tail == tail[..Sum(sizes)] + tail[Sum(sizes)..];
    assert b == b[..f.stSize] + tail;
  }

  /** Whatever follows, the leading whole records are listed first and in order. */
  lemma {:induction false} ReadAllPrefix(f: Frame, recs: seq<Record>, tail: seq<byte>)
    requires AllShaped(f, recs)
    ensures ReadAll(f, EncodeRecords(recs) + tail) ==
            Listing(recs + ReadAll(f, tail).recs, ReadAll(f, tail).clean)
    decreases |recs|
  {
    hide ReadRecord, EncodeRecord, WellShaped;
    if recs == [] {
      assert EncodeRecords(recs) + tail == tail;
      assert recs + ReadAll(f, tail).recs == ReadAll(f, tail).recs;
    } else {
      var first, others := recs[0], recs[1..];
      var after := EncodeRecords(others) + tail;
      assert EncodeRecords(recs) + tail == EncodeRecord(first) + after;
      ReadEncoded(f, first, after);
      ReadAllPrefix(f, others, tail);
      assert recs + ReadAll(f, tail).recs == [first] + (others + ReadAll(f, tail).recs);
    }
  }

  /** The reader recovers every record that was written, in order. */
  lemma ReadAllEncoded(f: Frame, recs: seq<Record>)
    requires AllShaped(f, recs)
    ensures ReadAll(f, EncodeRecords(recs)) == Listing(recs, true)
  {
    ReadAllPrefix(f, recs, []);
    assert EncodeRecords(recs) + [] == EncodeRecords(recs);
    assert recs + [] == recs;
  }

  /** Input read to its end without complaint is nothing but whole records. */
  lemma {:induction false} ReadAllSound(f: Frame, b: seq<byte>)
    requires ReadAll(f, b).clean
    ensures AllShaped(f, ReadAll(f, b).recs)
    ensures EncodeRecords(ReadAll(f, b).recs) == b
    decreases |b|
  {
    hide ReadRecord;
    if ReadRecord(f, b).Got? {
      var g := ReadRecord(f, b);
      ReadSound(f, b);
      ReadAllSound(f, g.rest);
      var recs := ReadAll(f, b).recs;
      assert recs[0] == g.rec && recs[1..] == ReadAll(f, g.rest).recs;
    }
  }

  /** A proper, nonempty prefix of a record is reported as truncated and never taken for
      a record of its own. */
  lemma CutRecord(f: Frame, r: Record, cut: nat)
    requires WellShaped(f, r) && 0 < cut < |EncodeRecord(r)|
    ensures ReadRecord(f, EncodeRecord(r)[..cut]) == Truncated
  {
    var sizes := BlocksAfter(f, r.stats);
    FlattenLength(r.extra, sizes);
    var part := EncodeRecord(r)[..cut];
    if cut >= f.stSize {
      assert part[..f.stSize] == r.stats;
    }
  }
}
