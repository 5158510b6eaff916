/** Which block of a record holds what: one array of the sample each, in the order in which
    sadc writes and sar reads them (sadc.c: write_stats). */
module SaBlocks {
  import opened Bytes
  import opened Framing
  import opened SaFormat
  import opened SaFlags
  import opened SaCounts

  datatype Kind = Cpus | Irqs | Pids | Serials | IrqCpus | Ifaces | Disks

  const KINDS: seq<Kind> := [Cpus, Irqs, Pids, Serials, IrqCpus, Ifaces, Disks]

  /** 0 if there is no such block. */
  function BlockSize(c: Counts, k: Kind): nat {
    match k
    case Cpus => if c.cpuNr > 0 then STATS_ONE_CPU_SIZE * (c.cpuNr + 1) else 0
    case Irqs => if Has(c.actflag, A_ONE_IRQ) then STATS_ONE_IRQ_SIZE else 0
    case Pids => PID_STATS_SIZE * c.pidNr
    case Serials => STATS_SERIAL_SIZE * c.serialNr
    case IrqCpus => STATS_IRQ_CPU_SIZE * (c.cpuNr + 1) * c.irqcpuNr
    case Ifaces => STATS_NET_DEV_SIZE * c.ifaceNr
    case Disks => if Has(c.actflag, A_DISK) then DISK_STATS_SIZE * c.diskNr else 0
  }

  /** How many of the first n kinds have a block: the place of the next one. */
  function Place(c: Counts, n: nat): nat
    requires n <= |KINDS|
  {
    if n == 0 then 0 else Place(c, n - 1) + if BlockSize(c, KINDS[n - 1]) > 0 then 1 else 0
  }

  function ArrayOf(s: Sample, k: Kind): seq<byte> {
    match k
    case Cpus => s.cpu
    case Irqs => s.irq
    case Pids => s.pid
    case Serials => s.serial
    case IrqCpus => s.irqcpu
    case Ifaces => s.iface
    case Disks => s.disk
  }

  /** Byte for byte the array, cut or zero-filled. */
  predicate Copies(b: seq<byte>, size: nat, a: seq<byte>) {
    |b| == size && forall j :: 0 <= j < size ==> b[j] == if j < |a| then a[j] else 0
  }

  /** The i-th kind has its block, in its place and with its own array of the sample, or none. */
  predicate CarriesKind(c: Counts, blocks: seq<seq<byte>>, s: Sample, i: nat)
    requires i < |KINDS|
  {
    var size, at := BlockSize(c, KINDS[i]), Place(c, i);
    size > 0 ==> at < |blocks| && Copies(blocks[at], size, ArrayOf(s, KINDS[i]))
  }

  /** The blocks of a record are those that the counts call for, each with its own array. */
  predicate Carries(c: Counts, blocks: seq<seq<byte>>, s: Sample) {
    && |blocks| == Place(c, |KINDS|)
    && forall i :: 0 <= i < |KINDS| ==> CarriesKind(c, blocks, s, i)
  }

  /** Every record that is formed carries its sample. */
  lemma RecordCarries(c: Counts, s: Sample, rtype: byte)
    ensures Carries(c, RecordOf(c, s, rtype).extra, s) && RecordOf(c, s, rtype).stats == Stamp(s.stats, rtype)
  {
    hide BlockSize, Copies;
    Gathered(c, s);
    InPlace(c, s, |KINDS|);
  }

  /** Bytes that are the structure and then all the blocks. */
  ghost predicate Conveys(out: seq<byte>, c: Counts, s: Sample, rtype: byte) {
    exists blocks :: Carries(c, blocks, s) && out == Stamp(s.stats, rtype) + Flatten(blocks)
  }

  lemma RecordConveys(c: Counts, s: Sample, rtype: byte)
    ensures Conveys(EncodeRecord(RecordOf(c, s, rtype)), c, s, rtype)
  {
    hide Carries, Stamp, Flatten, Payload;
    RecordCarries(c, s, rtype);
  }

  /** The blocks of the first n kinds. */
  function First(c: Counts, s: Sample, n: nat): seq<seq<byte>>
    requires n <= |KINDS|
  {
    if n == 0 then []
    else
      var k := KINDS[n - 1];
      First(c, s, n - 1) + Block(BlockSize(c, k) > 0, ArrayOf(s, k), BlockSize(c, k))
  }

  lemma Gathered(c: Counts, s: Sample)
    ensures Payload(c, s) == First(c, s, |KINDS|)
  {
    hide Has, Block, First, SizeIs;
    FirstCpu(c, s);
    BlockSizes(c);
    FirstStep(c, s, 1, Has(c.actflag, A_ONE_IRQ), STATS_ONE_IRQ_SIZE);
    FirstStep(c, s, 2, c.pidNr != 0, PID_STATS_SIZE * c.pidNr);
    FirstStep(c, s, 3, c.serialNr != 0, STATS_SERIAL_SIZE * c.serialNr);
    FirstStep(c, s, 4, c.irqcpuNr != 0, STATS_IRQ_CPU_SIZE * (c.cpuNr + 1) * c.irqcpuNr);
    FirstStep(c, s, 5, c.ifaceNr != 0, STATS_NET_DEV_SIZE * c.ifaceNr);
    FirstStep(c, s, 6, c.diskNr != 0 && Has(c.actflag, A_DISK), DISK_STATS_SIZE * c.diskNr);
  }

  lemma FirstCpu(c: Counts, s: Sample)
    ensures First(c, s, 1) == Block(c.cpuNr > 0, s.cpu, STATS_ONE_CPU_SIZE * (c.cpuNr + 1))
  {
    hide Block;
    BlockSizes(c);
    FirstStep(c, s, 0, c.cpuNr > 0, STATS_ONE_CPU_SIZE * (c.cpuNr + 1));
    var none: seq<seq<byte>> := [];
    assert none + Block(c.cpuNr > 0, s.cpu, STATS_ONE_CPU_SIZE * (c.cpuNr + 1)) ==
           Block(c.cpuNr > 0, s.cpu, STATS_ONE_CPU_SIZE * (c.cpuNr + 1));
  }

  lemma FirstStep(c: Counts, s: Sample, n: nat, present: bool, size: nat)
    requires SizeIs(c, n, present, size)
    ensures First(c, s, n + 1) == First(c, s, n) + Block(present, ArrayOf(s, KINDS[n]), size)
  {
    hide BlockSize, ArrayOf;
  }

  /** Size s of the i-th kind of block if it is present, and 0 if not. */
  predicate SizeIs(c: Counts, i: nat, present: bool, s: nat) {
    i < |KINDS| && BlockSize(c, KINDS[i]) == (if present then s else 0) && (present ==> s > 0)
  }

  lemma BlockSizes(c: Counts)
    ensures SizeIs(c, 0, c.cpuNr > 0, STATS_ONE_CPU_SIZE * (c.cpuNr + 1))
    ensures SizeIs(c, 1, Has(c.actflag, A_ONE_IRQ), STATS_ONE_IRQ_SIZE)
    ensures SizeIs(c, 2, c.pidNr != 0, PID_STATS_SIZE * c.pidNr)
    ensures SizeIs(c, 3, c.serialNr != 0, STATS_SERIAL_SIZE * c.serialNr)
    ensures SizeIs(c, 4, c.irqcpuNr != 0, STATS_IRQ_CPU_SIZE * (c.cpuNr + 1) * c.irqcpuNr)
    ensures SizeIs(c, 5, c.ifaceNr != 0, STATS_NET_DEV_SIZE * c.ifaceNr)
    ensures SizeIs(c, 6, c.diskNr != 0 && Has(c.actflag, A_DISK), DISK_STATS_SIZE * c.diskNr)
  {
    hide Has;
    var a, b := STATS_IRQ_CPU_SIZE * (c.cpuNr + 1), c.irqcpuNr;
    assert a > 0 && (b > 0 ==> a * b > 0) && (b == 0 ==> a * b == 0);
  }

  lemma {:induction false} InPlace(c: Counts, s: Sample, n: nat)
    requires n <= |KINDS|
    ensures |First(c, s, n)| == Place(c, n)
    ensures forall i :: 0 <= i < n ==> CarriesKind(c, First(c, s, n), s, i)
    decreases n
  {
    hide BlockSize, ArrayOf;
    if n > 0 {
      InPlace(c, s, n - 1);
      var k, before := KINDS[n - 1], First(c, s, n - 1);
      forall i | 0 <= i < n ensures CarriesKind(c, First(c, s, n), s, i) {
        if i < n - 1 {
          assert CarriesKind(c, before, s, i);
        } else if BlockSize(c, k) > 0 {
          assert First(c, s, n)[|before|] == FitTo(ArrayOf(s, k), BlockSize(c, k));
        }
      }
    }
  }

  // ---------- counts that call for the same blocks ----------

  /** What a header tells about the records after it; `pidNr` as the reader knows it. */
  function CountsIn(h: Header, pidNr: uint32): Counts {
    Counts(h.actflag, h.proc, h.serial, h.irqcpu, h.iface, h.nrDisk, pidNr)
  }

  /** Blocks of the same kinds and sizes. */
  predicate SameBlocks(c: Counts, d: Counts) {
    forall i :: 0 <= i < |KINDS| ==> BlockSize(c, KINDS[i]) == BlockSize(d, KINDS[i])
  }

  lemma {:induction false} SamePlace(c: Counts, d: Counts, n: nat)
    requires SameBlocks(c, d) && n <= |KINDS|
    ensures Place(c, n) == Place(d, n)
    decreases n
  {
    hide BlockSize;
    if n > 0 { SamePlace(c, d, n - 1); }
  }

  /** A record is read alike under both. */
  lemma SameCarries(c: Counts, d: Counts, blocks: seq<seq<byte>>, s: Sample)
    requires SameBlocks(c, d) && Carries(c, blocks, s)
    ensures Carries(d, blocks, s)
  {
    hide BlockSize, Place, Copies, ArrayOf;
    SamePlace(c, d, |KINDS|);
    forall i | 0 <= i < |KINDS| ensures CarriesKind(d, blocks, s, i) {
      SamePlace(c, d, i);
      assert CarriesKind(c, blocks, s, i);
    }
  }

  /** A new header tells of the blocks that follow it. */
  lemma HeaderTells(c: Counts, time: Time, ident: Ident)
    ensures SameBlocks(c, CountsIn(HeaderOf(c, time, ident), c.pidNr))
  {
    hide Has;
  }

  /** Once forced, the counts call for the blocks that the file's header tells of. */
  lemma ForcedTells(c: Counts, h: Header)
    requires c.pidNr == 0 && c.cpuNr == h.proc && Sane(h)
    ensures SameBlocks(ForceTo(c, h), CountsIn(h, 0))
  {
    hide Has, Clear;
    ClearDisk(h.actflag);
  }

  /** Sizes of the blocks of the first n kinds. */
  function Sizes(c: Counts, n: nat): seq<nat>
    requires n <= |KINDS|
  {
    if n == 0 then []
    else Sizes(c, n - 1) + When(BlockSize(c, KINDS[n - 1]) > 0, BlockSize(c, KINDS[n - 1]))
  }

  lemma SizesAll(c: Counts)
    ensures Sizes(c, |KINDS|) == WriterBlocks(c)
  {
    hide Has, When, Sizes, SizeIs;
    SizesCpu(c);
    BlockSizes(c);
    SizesStep(c, 1, Has(c.actflag, A_ONE_IRQ), STATS_ONE_IRQ_SIZE);
    SizesStep(c, 2, c.pidNr != 0, PID_STATS_SIZE * c.pidNr);
    SizesStep(c, 3, c.serialNr != 0, STATS_SERIAL_SIZE * c.serialNr);
    SizesStep(c, 4, c.irqcpuNr != 0, STATS_IRQ_CPU_SIZE * (c.cpuNr + 1) * c.irqcpuNr);
    SizesStep(c, 5, c.ifaceNr != 0, STATS_NET_DEV_SIZE * c.ifaceNr);
    SizesStep(c, 6, c.diskNr != 0 && Has(c.actflag, A_DISK), DISK_STATS_SIZE * c.diskNr);
  }

  lemma SizesCpu(c: Counts)
    ensures Sizes(c, 1) == When(c.cpuNr > 0, STATS_ONE_CPU_SIZE * (c.cpuNr + 1))
  {
    hide When;
    BlockSizes(c);
    SizesStep(c, 0, c.cpuNr > 0, STATS_ONE_CPU_SIZE * (c.cpuNr + 1));
    var none: seq<nat> := [];
    assert none + When(c.cpuNr > 0, STATS_ONE_CPU_SIZE * (c.cpuNr + 1)) ==
           When(c.cpuNr > 0, STATS_ONE_CPU_SIZE * (c.cpuNr + 1));
  }

  lemma SizesStep(c: Counts, n: nat, present: bool, size: nat)
    requires SizeIs(c, n, present, size)
    ensures Sizes(c, n + 1) == Sizes(c, n) + When(present, size)
  {
    hide BlockSize;
  }

  lemma {:induction false} SameSizes(c: Counts, d: Counts, n: nat)
    requires SameBlocks(c, d) && n <= |KINDS|
    ensures Sizes(c, n) == Sizes(d, n)
    decreases n
  {
    hide BlockSize;
    if n > 0 { SameSizes(c, d, n - 1); }
  }

  /** Blocks of the same kinds are framed alike, in a file as on the pipe. */
  lemma SameWriterBlocks(c: Counts, d: Counts)
    requires SameBlocks(c, d)
    ensures WriterBlocks(c) == WriterBlocks(d)
  {
    hide SameBlocks, WriterBlocks, Sizes;
    SameSizes(c, d, |KINDS|);
    SizesAll(c);
    SizesAll(d);
  }

  lemma FileTells(c: Counts, h: Header)
    requires Sane(h) && SameBlocks(c, CountsIn(h, 0))
    ensures WriterBlocks(c) == FileBlocks(h)
  {
    hide SameBlocks, Has;
    SameWriterBlocks(c, CountsIn(h, 0));
    PipeIsFile(h);
  }
}
