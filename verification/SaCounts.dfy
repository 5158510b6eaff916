/** sadc's idea of the machine (its global counters) against what a header announces. */
module SaCounts {
  import opened Bytes
  import opened Framing
  import opened SaFormat
  import opened SaFlags

  /** cpu_nr, serial_nr, irqcpu_nr, iface_nr, disk_nr, pid_nr and sadc_actflag. */
  datatype Counts = Counts(
    actflag: uint32, cpuNr: uint32, serialNr: uint32, irqcpuNr: uint32,
    ifaceNr: uint32, diskNr: uint32, pidNr: uint32)

  /** Sizes of the blocks that sadc writes after a file_stats structure (sadc.c: write_stats). */
  function WriterBlocks(c: Counts): seq<nat> {
    When(c.cpuNr > 0, STATS_ONE_CPU_SIZE * (c.cpuNr + 1)) +
    When(Has(c.actflag, A_ONE_IRQ), STATS_ONE_IRQ_SIZE) +
    When(c.pidNr != 0, PID_STATS_SIZE * c.pidNr) +
    When(c.serialNr != 0, STATS_SERIAL_SIZE * c.serialNr) +
    When(c.irqcpuNr != 0, STATS_IRQ_CPU_SIZE * (c.cpuNr + 1) * c.irqcpuNr) +
    When(c.ifaceNr != 0, STATS_NET_DEV_SIZE * c.ifaceNr) +
    When(c.diskNr != 0 && Has(c.actflag, A_DISK), DISK_STATS_SIZE * c.diskNr)
  }

  /** sadc.c: setup_file_hdr. */
  function HeaderOf(c: Counts, time: Time, ident: Ident): Header {
    Header(time, c.actflag, c.pidNr, c.irqcpuNr, if Has(c.actflag, A_DISK) then c.diskNr else 0,
           c.cpuNr, c.serialNr, c.ifaceNr, SA_MAGIC, FILE_STATS_SIZE, ident)
  }

  /** sadc.c: open_ofile, the part that forces the collector's characteristics to the file's. */
  function ForceTo(c: Counts, h: Header): Counts {
    var c1 := c.(actflag := h.actflag, serialNr := h.serial, ifaceNr := h.iface, irqcpuNr := h.irqcpu);
    if h.nrDisk == c.diskNr then c1
    else if h.nrDisk == 0 then c1.(actflag := Clear(h.actflag, A_DISK))
    else c1.(diskNr := h.nrDisk)
  }

  /** Sizes of the blocks that sar reads from the pipe after a file_stats structure
      (sar.c: read_stat_bunch); `pidNr` is sar's own variable. */
  function PipeBlocks(h: Header, pidNr: uint32): seq<nat> {
    When(h.proc > 0, STATS_ONE_CPU_SIZE * (h.proc + 1)) +
    When(Has(h.actflag, A_ONE_IRQ), STATS_ONE_IRQ_SIZE) +
    When(pidNr != 0, PID_STATS_SIZE * pidNr) +
    When(h.serial != 0, STATS_SERIAL_SIZE * h.serial) +
    When(h.irqcpu != 0, STATS_IRQ_CPU_SIZE * (h.proc + 1) * h.irqcpu) +
    When(h.iface != 0, STATS_NET_DEV_SIZE * h.iface) +
    When(h.nrDisk != 0, DISK_STATS_SIZE * h.nrDisk)
  }

  /** A header with disk counts but without the disk activity is never written by sadc. */
  predicate Sane(h: Header) {
    && h.magic == SA_MAGIC
    && h.stSize == FILE_STATS_SIZE
    && (h.nrDisk != 0 ==> Has(h.actflag, A_DISK))
  }

  /** A new header announces exactly the blocks that will follow, on the pipe for any set of
      monitored processes and in a file when there are none. */
  lemma HeaderAnnounces(c: Counts, time: Time, ident: Ident)
    ensures Sane(HeaderOf(c, time, ident))
    ensures PipeBlocks(HeaderOf(c, time, ident), c.pidNr) == WriterBlocks(c)
    ensures FileBlocks(HeaderOf(c, time, ident)) == WriterBlocks(c) <==> c.pidNr == 0
  {
    var h := HeaderOf(c, time, ident);
    if c.pidNr == 0 {
      PipeIsFile(h);
    } else {
      PipeHasPids(h, c.pidNr);
    }
  }

  lemma PipeIsFile(h: Header)
    ensures PipeBlocks(h, 0) == FileBlocks(h)
  {
    var a := When(h.proc > 0, STATS_ONE_CPU_SIZE * (h.proc + 1)) + When(Has(h.actflag, A_ONE_IRQ), STATS_ONE_IRQ_SIZE);
    assert a + When(false, 0) == a;
  }

  lemma PipeHasPids(h: Header, pidNr: uint32)
    requires pidNr != 0
    ensures |PipeBlocks(h, pidNr)| == |FileBlocks(h)| + 1
  {}

  /** Forcing the counts makes every later record fit the file's header, exactly when that
      header is one that sadc could have written. */
  lemma AppendFits(c: Counts, h: Header)
    requires c.pidNr == 0 && c.cpuNr == h.proc
    ensures WriterBlocks(ForceTo(c, h)) == FileBlocks(h) <==> (h.nrDisk != 0 ==> Has(h.actflag, A_DISK))
    ensures ForceTo(c, h).pidNr == 0 && ForceTo(c, h).cpuNr == c.cpuNr
  {
    hide When, Has;
    var d := ForceTo(c, h);
    ClearDisk(h.actflag);
    PipeIsFile(h);
    var common := When(h.proc > 0, STATS_ONE_CPU_SIZE * (h.proc + 1)) +
      When(Has(h.actflag, A_ONE_IRQ), STATS_ONE_IRQ_SIZE) + When(c.pidNr != 0, PID_STATS_SIZE * c.pidNr) +
      When(h.serial != 0, STATS_SERIAL_SIZE * h.serial) +
      When(h.irqcpu != 0, STATS_IRQ_CPU_SIZE * (h.proc + 1) * h.irqcpu) +
      When(h.iface != 0, STATS_NET_DEV_SIZE * h.iface);
    var announced := When(h.nrDisk != 0, DISK_STATS_SIZE * h.nrDisk);
    var written := When(d.diskNr != 0 && Has(d.actflag, A_DISK), DISK_STATS_SIZE * d.diskNr);
    assert FileBlocks(h) == common + announced;
    assert WriterBlocks(d) == common + written;
    DiskBlock(c, h);
    assert (common + announced)[|common|..] == announced && (common + written)[|common|..] == written;
  }

  lemma DiskBlock(c: Counts, h: Header)
    ensures var d := ForceTo(c, h);
            var written := When(d.diskNr != 0 && Has(d.actflag, A_DISK), DISK_STATS_SIZE * d.diskNr);
            var announced := When(h.nrDisk != 0, DISK_STATS_SIZE * h.nrDisk);
            written == announced <==> (h.nrDisk != 0 ==> Has(h.actflag, A_DISK))
  {
    ClearDisk(h.actflag);
  }

  lemma ClearDisk(flags: uint32)
    ensures !Has(Clear(flags, A_DISK), A_DISK)
    ensures Has(Clear(flags, A_DISK), A_ONE_IRQ) == Has(flags, A_ONE_IRQ)
  {}

  /** Rotation under sar -o: the header goes to the pipe first, then the new day file may
      force other counts on the collector. sar stays in step exactly when the header just
      sent announces the same blocks as the header already in that file. */
  lemma RotationStaysInStep(c: Counts, time: Time, ident: Ident, found: Header)
    requires c.pidNr == 0 && c.cpuNr == found.proc && Sane(found)
    ensures PipeBlocks(HeaderOf(c, time, ident), 0) == WriterBlocks(ForceTo(c, found)) <==>
            FileBlocks(HeaderOf(c, time, ident)) == FileBlocks(found)
  {
    AppendFits(c, found);
    PipeIsFile(HeaderOf(c, time, ident));
  }

  /** A day file with one network interface less: sar would take the rest of every later
      record for the interface block it was promised. */
  lemma RotationOutOfStep(time: Time, ident: Ident)
    ensures var c := Counts(0, 0, 0, 0, 2, 0, 0);
            var found := HeaderOf(c.(ifaceNr := 1), time, ident);
            PipeBlocks(HeaderOf(c, time, ident), 0) != WriterBlocks(ForceTo(c, found))
  {
    var c := Counts(0, 0, 0, 0, 2, 0, 0);
    var found := HeaderOf(c.(ifaceNr := 1), time, ident);
    assert PipeBlocks(HeaderOf(c, time, ident), 0) == [288];
    assert WriterBlocks(ForceTo(c, found)) == [144];
  }

  /** What the collector has sampled; the arrays are cut or zero-filled to the counts in force. */
  datatype Sample = Sample(
    stats: seq<byte>, cpu: seq<byte>, irq: seq<byte>, pid: seq<byte>, serial: seq<byte>,
    irqcpu: seq<byte>, iface: seq<byte>, disk: seq<byte>)

  function FitTo(b: seq<byte>, size: nat): (r: seq<byte>)
    ensures |r| == size
    ensures forall i :: 0 <= i < size ==> r[i] == if i < |b| then b[i] else 0
  {
    if |b| >= size then b[..size] else b + seq(size - |b|, _ => 0)
  }

  /** The file_stats structure with its record_type set. */
  function Stamp(stats: seq<byte>, rtype: byte): (r: Stats)
    ensures HasType(r, rtype)
    ensures forall i :: 0 <= i < |r| && i != RECORD_TYPE && i < |stats| ==> r[i] == stats[i]
  {
    FitTo(stats, FILE_STATS_SIZE)[RECORD_TYPE := rtype]
  }

  function Block(present: bool, b: seq<byte>, size: nat): seq<seq<byte>> {
    if present then [FitTo(b, size)] else []
  }

  function Payload(c: Counts, s: Sample): seq<seq<byte>> {
    Block(c.cpuNr > 0, s.cpu, STATS_ONE_CPU_SIZE * (c.cpuNr + 1)) +
    Block(Has(c.actflag, A_ONE_IRQ), s.irq, STATS_ONE_IRQ_SIZE) +
    Block(c.pidNr != 0, s.pid, PID_STATS_SIZE * c.pidNr) +
    Block(c.serialNr != 0, s.serial, STATS_SERIAL_SIZE * c.serialNr) +
    Block(c.irqcpuNr != 0, s.irqcpu, STATS_IRQ_CPU_SIZE * (c.cpuNr + 1) * c.irqcpuNr) +
    Block(c.ifaceNr != 0, s.iface, STATS_NET_DEV_SIZE * c.ifaceNr) +
    Block(c.diskNr != 0 && Has(c.actflag, A_DISK), s.disk, DISK_STATS_SIZE * c.diskNr)
  }

  function RecordOf(c: Counts, s: Sample, rtype: byte): Record {
    Record(Stamp(s.stats, rtype), Payload(c, s))
  }

  /** Every record the collector forms has the blocks its counts call for. */
  lemma RecordFits(c: Counts, s: Sample, rtype: byte)
    requires rtype != R_DUMMY
    ensures WellShaped(Frame(FILE_STATS_SIZE, WriterBlocks(c)), RecordOf(c, s, rtype))
  {
    PayloadFits(c, s);
  }

  lemma AddBlock(p: seq<seq<byte>>, w: seq<nat>, present: bool, b: seq<byte>, size: nat)
    requires Fits(p, w)
    ensures Fits(p + Block(present, b, size), w + When(present, size))
  {}

  lemma PayloadFits(c: Counts, s: Sample)
    ensures Fits(Payload(c, s), WriterBlocks(c))
  {
    hide Block, When, Fits, Has;
    var irq, disk := Has(c.actflag, A_ONE_IRQ), c.diskNr != 0 && Has(c.actflag, A_DISK);
    var z1, z2, z3 := STATS_ONE_CPU_SIZE * (c.cpuNr + 1), PID_STATS_SIZE * c.pidNr, STATS_SERIAL_SIZE * c.serialNr;
    var z4, z5 := STATS_IRQ_CPU_SIZE * (c.cpuNr + 1) * c.irqcpuNr, STATS_NET_DEV_SIZE * c.ifaceNr;
    FirstBlock(c.cpuNr > 0, s.cpu, z1);
    var p, w := Block(c.cpuNr > 0, s.cpu, z1), When(c.cpuNr > 0, z1);
    AddBlock(p, w, irq, s.irq, STATS_ONE_IRQ_SIZE);
    p, w := p + Block(irq, s.irq, STATS_ONE_IRQ_SIZE), w + When(irq, STATS_ONE_IRQ_SIZE);
    AddBlock(p, w, c.pidNr != 0, s.pid, z2);
    p, w := p + Block(c.pidNr != 0, s.pid, z2), w + When(c.pidNr != 0, z2);
    AddBlock(p, w, c.serialNr != 0, s.serial, z3);
    p, w := p + Block(c.serialNr != 0, s.serial, z3), w + When(c.serialNr != 0, z3);
    AddBlock(p, w, c.irqcpuNr != 0, s.irqcpu, z4);
    p, w := p + Block(c.irqcpuNr != 0, s.irqcpu, z4), w + When(c.irqcpuNr != 0, z4);
    AddBlock(p, w, c.ifaceNr != 0, s.iface, z5);
    p, w := p + Block(c.ifaceNr != 0, s.iface, z5), w + When(c.ifaceNr != 0, z5);
    AddBlock(p, w, disk, s.disk, DISK_STATS_SIZE * c.diskNr);
  }

  lemma FirstBlock(present: bool, b: seq<byte>, size: nat)
    ensures Fits(Block(present, b, size), When(present, size))
  {}
}
