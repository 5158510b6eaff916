/** The system activity file: one `file_hdr`, then records. A record is a `file_stats`
    structure followed, unless it is a restart marker, by the blocks that the header's
    counts and activity flag announce (sa.h; sar.c: read_extra_stats). */
module SaFormat {
  import opened Bytes
  import opened Framing

  const SA_MAGIC: uint16 := 0x2167
  const FILE_HDR_SIZE: nat := 240
  const FILE_STATS_SIZE: uint16 := 448
  const STATS_ONE_CPU_SIZE: nat := 96
  const STATS_ONE_IRQ_SIZE: nat := 1024
  const STATS_SERIAL_SIZE: nat := 32
  const STATS_IRQ_CPU_SIZE: nat := 8
  const STATS_NET_DEV_SIZE: nat := 144
  const DISK_STATS_SIZE: nat := 80
  const PID_STATS_SIZE: nat := 96

  const A_ONE_IRQ: nat := 0x10
  const A_SERIAL: nat := 0x100
  const A_NET_DEV: nat := 0x200
  const A_NET_EDEV: nat := 0x400
  const A_DISK: nat := 0x800
  const A_PID: nat := 0x1000

  type Time = s: seq<byte> | |s| == 8 witness seq(8, _ => 0)
  type Ident = s: seq<byte> | |s| == 200 witness seq(200, _ => 0)
  type Stats = s: seq<byte> | |s| == FILE_STATS_SIZE witness seq(FILE_STATS_SIZE, _ => 0)

  /** struct file_hdr; `ident` stands for the date and the three uname strings. */
  datatype Header = Header(
    ustTime: Time, actflag: uint32, nrPid: uint32, irqcpu: uint32, nrDisk: uint32,
    proc: uint32, serial: uint32, iface: uint32, magic: uint16, stSize: uint16, ident: Ident)

  const HDR_FIELDS: seq<nat> := [8, 4, 4, 4, 4, 4, 4, 4, 2, 2, 200]

  predicate Has(flags: uint32, bit: nat)
    requires bit > 0
  {
    flags / bit % 2 == 1
  }

  function HeaderFields(h: Header): (f: seq<seq<byte>>)
    ensures Fits(f, HDR_FIELDS)
  {
    [h.ustTime, U32(h.actflag), U32(h.nrPid), U32(h.irqcpu), U32(h.nrDisk), U32(h.proc),
     U32(h.serial), U32(h.iface), U16(h.magic), U16(h.stSize), h.ident]
  }

  lemma HeaderSize()
    ensures Sum(HDR_FIELDS) == FILE_HDR_SIZE
  {
    assert Sum([2, 2, 200]) == 204;
    assert HDR_FIELDS[8..] == [2, 2, 200];
    assert Sum(HDR_FIELDS[4..]) == 16 + Sum(HDR_FIELDS[8..]) by {
      assert HDR_FIELDS[4..][1..] == HDR_FIELDS[5..] && HDR_FIELDS[5..][1..] == HDR_FIELDS[6..];
      assert HDR_FIELDS[6..][1..] == HDR_FIELDS[7..] && HDR_FIELDS[7..][1..] == HDR_FIELDS[8..];
    }
    assert HDR_FIELDS[1..][1..] == HDR_FIELDS[2..] && HDR_FIELDS[2..][1..] == HDR_FIELDS[3..];
    assert HDR_FIELDS[3..][1..] == HDR_FIELDS[4..];
  }

  function EncodeHeader(h: Header): (b: seq<byte>)
    ensures |b| == FILE_HDR_SIZE
  {
    FlattenLength(HeaderFields(h), HDR_FIELDS);
    HeaderSize();
    Flatten(HeaderFields(h))
  }

  function DecodeHeader(b: seq<byte>): Header
    requires |b| == FILE_HDR_SIZE
  {
    HeaderSize();
    FlattenSplit(b, HDR_FIELDS);
    var f := Split(b, HDR_FIELDS);
    Header(f[0], FromU32(f[1]), FromU32(f[2]), FromU32(f[3]), FromU32(f[4]), FromU32(f[5]),
           FromU32(f[6]), FromU32(f[7]), FromU16(f[8]), FromU16(f[9]), f[10])
  }

  /** What sadc stores in a header is what sar reads back. */
  lemma HeaderRoundTrip(h: Header)
    ensures DecodeHeader(EncodeHeader(h)) == h
  {
    HeaderSize();
    var f := HeaderFields(h);
    SplitFlatten(f, HDR_FIELDS);
    DecodeU32(h.actflag); DecodeU32(h.nrPid); DecodeU32(h.irqcpu); DecodeU32(h.nrDisk);
    DecodeU32(h.proc); DecodeU32(h.serial); DecodeU32(h.iface);
    DecodeU16(h.magic); DecodeU16(h.stSize);
  }

  /** Distinct byte strings are distinct headers. */
  lemma HeaderCanonical(b: seq<byte>)
    requires |b| == FILE_HDR_SIZE
    ensures EncodeHeader(DecodeHeader(b)) == b
  {
    hide Flatten, Split, U32, U16, FromU32, FromU16;
    HeaderSize();
    FlattenSplit(b, HDR_FIELDS);
    var f := Split(b, HDR_FIELDS);
    EncodeU32(f[1]); EncodeU32(f[2]); EncodeU32(f[3]); EncodeU32(f[4]); EncodeU32(f[5]);
    EncodeU32(f[6]); EncodeU32(f[7]); EncodeU16(f[8]); EncodeU16(f[9]);
    var g := HeaderFields(DecodeHeader(b));
    assert |f| == 11 && |g| == 11;
    assert g[0] == f[0] && g[1] == f[1] && g[2] == f[2] && g[3] == f[3] && g[4] == f[4] && g[5] == f[5];
    assert g[6] == f[6] && g[7] == f[7] && g[8] == f[8] && g[9] == f[9] && g[10] == f[10];
    assert g == f;
  }

  function When(present: bool, size: nat): seq<nat> {
    if present then [size] else []
  }

  /** Sizes of the blocks that sar reads after a file_stats structure of a file
      (sar.c: read_extra_stats). */
  function FileBlocks(h: Header): seq<nat> {
    When(h.proc > 0, STATS_ONE_CPU_SIZE * (h.proc + 1)) +
    When(Has(h.actflag, A_ONE_IRQ), STATS_ONE_IRQ_SIZE) +
    When(h.serial != 0, STATS_SERIAL_SIZE * h.serial) +
    When(h.irqcpu != 0, STATS_IRQ_CPU_SIZE * (h.proc + 1) * h.irqcpu) +
    When(h.iface != 0, STATS_NET_DEV_SIZE * h.iface) +
    When(h.nrDisk != 0, DISK_STATS_SIZE * h.nrDisk)
  }

  function FileFrame(h: Header): Frame {
    Frame(h.stSize, FileBlocks(h))
  }

  /** A whole file as sar sees it. */
  datatype FileView =
    | Empty
    | Foreign                                       // short or wrong magic: "Invalid system activity file"
    | Damaged(hdr: Header)                          // "End of system activity file unexpected"
    | Activity(hdr: Header, recs: seq<Record>)

  function View(b: seq<byte>): FileView {
    if b == [] then Empty
    else if |b| < FILE_HDR_SIZE then Foreign
    else
      var h := DecodeHeader(b[..FILE_HDR_SIZE]);
      var l := ReadAll(FileFrame(h), b[FILE_HDR_SIZE..]);
      if h.magic != SA_MAGIC then Foreign
      else if l.clean then Activity(h, l.recs)
      else Damaged(h)
  }

  /** The reader accepts exactly the files that are one header followed by whole records,
      and lists exactly those records. */
  lemma ActivityFiles(b: seq<byte>, h: Header, recs: seq<Record>)
    ensures View(b) == Activity(h, recs) <==>
            h.magic == SA_MAGIC && AllShaped(FileFrame(h), recs) && b == EncodeHeader(h) + EncodeRecords(recs)
  {
    hide DecodeHeader, EncodeHeader, FileBlocks, ReadAll;
    if h.magic == SA_MAGIC && AllShaped(FileFrame(h), recs) && b == EncodeHeader(h) + EncodeRecords(recs) {
      assert b[..FILE_HDR_SIZE] == EncodeHeader(h);
      assert b[FILE_HDR_SIZE..] == EncodeRecords(recs);
      HeaderRoundTrip(h);
      ReadAllEncoded(FileFrame(h), recs);
    }
    if View(b) == Activity(h, recs) {
      HeaderCanonical(b[..FILE_HDR_SIZE]);
      ReadAllSound(FileFrame(h), b[FILE_HDR_SIZE..]);
      assert b == b[..FILE_HDR_SIZE] + b[FILE_HDR_SIZE..];
    }
  }

  /** Appending one well-shaped record adds it at the end of the listing and changes nothing else. */
  lemma AppendRecord(b: seq<byte>, r: Record)
    requires View(b).Activity? && WellShaped(FileFrame(View(b).hdr), r)
    ensures View(b + EncodeRecord(r)) == Activity(View(b).hdr, View(b).recs + [r])
  {
    hide View, DecodeHeader, EncodeHeader, FileBlocks;
    var h, recs := View(b).hdr, View(b).recs;
    ActivityFiles(b, h, recs);
    EncodeAppend(recs, [r]);
    assert EncodeRecords([r]) == EncodeRecord(r) + EncodeRecords([]);
    assert b + EncodeRecord(r) == EncodeHeader(h) + EncodeRecords(recs + [r]);
    ActivityFiles(b + EncodeRecord(r), h, recs + [r]);
  }

  /** A file that holds only a header is an activity file without records. */
  lemma FreshFile(h: Header)
    requires h.magic == SA_MAGIC
    ensures View(EncodeHeader(h)) == Activity(h, [])
  {
    assert EncodeHeader(h) == EncodeHeader(h) + EncodeRecords([]);
    ActivityFiles(EncodeHeader(h), h, []);
  }

  /** A file cut inside its last record is reported as damaged, never as a shorter file. */
  lemma CutRecordIsDamage(b: seq<byte>, r: Record, cut: nat)
    requires View(b).Activity? && WellShaped(FileFrame(View(b).hdr), r)
    requires 0 < cut < |EncodeRecord(r)|
    ensures View(b + EncodeRecord(r)[..cut]) == Damaged(View(b).hdr)
  {
    hide DecodeHeader, EncodeHeader, FileBlocks, ReadRecord;
    var h, recs := View(b).hdr, View(b).recs;
    ActivityFiles(b, h, recs);
    var f, part := FileFrame(h), EncodeRecord(r)[..cut];
    var c := b + part;
    assert c[..FILE_HDR_SIZE] == b[..FILE_HDR_SIZE];
    assert c[FILE_HDR_SIZE..] == EncodeRecords(recs) + part;
    CutRecord(f, r, cut);
    ReadAllPrefix(f, recs, part);
  }
}
