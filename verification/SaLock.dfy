/** Several collectors run with -L append to one existing activity file. Each record takes
    several write(2) calls; any process may be scheduled between any two of them (sadc.c:
    ask_for_flock, write_stats, write_dummy_record). */
module SaLock {
  import opened Bytes
  import opened Framing
  import opened SaFormat
  import opened SaCounts

  /** A collector between opening the file and its end. While it writes a record, `written`
      and `left` are the blocks already handed to the kernel and those still to come. */
  datatype Proc =
    | NotStarted
    | Running(counts: Counts, locked: bool, written: seq<seq<byte>>, left: seq<seq<byte>>)
    | Ended

  /** `owner` is the process that holds the kernel's lock. */
  datatype State = State(file: seq<byte>, owner: Option<nat>, procs: map<nat, Proc>, log: seq<Record>)

  datatype Step =
    | Start(p: nat, counts: Counts) // open_ofile: take over the file's characteristics
    | Sampled(p: nat, s: Sample)    // write_stats: try to lock, prepare the record
    | Restarted(p: nat, time: seq<byte>) // write_dummy_record: lock or give up
    | WriteBlock(p: nat)            // one write(2) with O_APPEND
    | RotatedIn(p: nat, counts: Counts, believes: bool) // rw_sa_stat_loop: come from another file
    | Stop(p: nat)                  // exit, which closes the file and drops the lock

  function Get(s: State, p: nat): Proc {
    if p in s.procs then s.procs[p] else NotStarted
  }

  /** The blocks of a record in the order of the write calls. */
  function Chunks(r: Record): seq<seq<byte>> {
    [r.stats] + r.extra
  }

  predicate CanLock(s: State, p: nat) {
    Get(s, p).Running? && Get(s, p).left == [] && (Get(s, p).locked || s.owner.None?)
  }

  function Begin(s: State, p: nat, r: Record): State
    requires Get(s, p).Running?
  {
    var q := Get(s, p);
    s.(owner := if q.locked then s.owner else Some(p),
       procs := s.procs[p := q.(locked := true, written := [], left := Chunks(r))])
  }

  /** The record a step begins to write, if it gets that far. */
  function Begun(s: State, step: Step): Option<Record> {
    match step
    case Sampled(p, sample) =>
      if CanLock(s, p) then Some(RecordOf(Get(s, p).counts, sample, R_STATS)) else None
    case Restarted(p, time) =>
      if CanLock(s, p) then Some(Record(Stamp(time, R_DUMMY), [])) else None
    case _ => None
  }

  function Next(s: State, step: Step, h: Header): State {
    match step
    case Start(p, c) =>
      if Get(s, p) != NotStarted then s
      else if h.proc != c.cpuNr then s.(procs := s.procs[p := Ended]) // "Cannot append data to that file"
      else s.(procs := s.procs[p := Running(ForceTo(c.(pidNr := 0), h), false, [], [])])
    case Sampled(p, sample) =>
      if CanLock(s, p) then Begin(s, p, RecordOf(Get(s, p).counts, sample, R_STATS))
      else s // the lock would block: wait for the next interval
    case Restarted(p, time) =>
      if CanLock(s, p) then Begin(s, p, Record(Stamp(time, R_DUMMY), []))
      else if Get(s, p).Running? && Get(s, p).left == [] then s.(procs := s.procs[p := Ended])
      else s
    case WriteBlock(p) =>
      var q := Get(s, p);
      if !q.Running? || q.left == [] then s
      else
        var written, left := q.written + [q.left[0]], q.left[1..];
        var s1 := s.(file := s.file + q.left[0]);
        if left != [] then s1.(procs := s.procs[p := q.(written := written, left := left)])
        else s1.(procs := s.procs[p := q.(written := [], left := [])],
                 log := s.log + [Record(written[0], written[1..])])
    case RotatedIn(p, c, believes) =>
      // the file left behind took its lock with it, but S_F_FILE_LCK is not reset
      if Get(s, p) != NotStarted then s
      else if h.proc != c.cpuNr then s.(procs := s.procs[p := Ended])
      else s.(procs := s.procs[p := Running(ForceTo(c.(pidNr := 0), h), believes, [], [])])
    case Stop(p) =>
      var q := Get(s, p);
      if !q.Running? || q.left != [] then s
      else s.(owner := if s.owner == Some(p) then None else s.owner, procs := s.procs[p := Ended])
  }

  /** Bytes of the record that the owner is in the middle of. */
  function Partial(s: State): seq<byte> {
    if s.owner.Some? && Get(s, s.owner.value).Running? then Flatten(Get(s, s.owner.value).written) else []
  }

  predicate InProgress(q: Proc, f: Frame)
    requires q.Running?
  {
    && q.left != []
    && var all := q.written + q.left; WellShaped(f, Record(all[0], all[1..]))
  }

  ghost predicate ProcOk(s: State, p: nat, h: Header) {
    var q := Get(s, p);
    && (s.owner == Some(p) ==> q.Running?)
    && (q.Running? ==>
          && WriterBlocks(q.counts) == FileBlocks(h)
          && (q.locked <==> s.owner == Some(p))
          && (q.left == [] ==> q.written == [])
          && (q.left != [] ==> q.locked && InProgress(q, FileFrame(h))))
  }

  /** The file is the header, whole records, and at most one record in the making; only the
      lock owner is writing; everyone's counts are the file's. */
  ghost predicate Inv(s: State, h: Header, base: seq<Record>) {
    && Sane(h)
    && AllShaped(FileFrame(h), base + s.log)
    && s.file == EncodeHeader(h) + EncodeRecords(base + s.log) + Partial(s)
    && forall p: nat :: ProcOk(s, p, h)
  }

  lemma BeginKeeps(s: State, p: nat, r: Record, h: Header, base: seq<Record>)
    requires Inv(s, h, base) && CanLock(s, p) && WellShaped(FileFrame(h), r)
    ensures Inv(Begin(s, p, r), h, base)
  {
    hide FileBlocks, WriterBlocks, EncodeHeader, WellShaped, AllShaped;
    var s' := Begin(s, p, r);
    assert ProcOk(s, p, h);
    assert Partial(s) == Partial(s') == [] by {
      if s.owner.Some? { assert ProcOk(s, s.owner.value, h); }
    }
    var all := Get(s', p).written + Get(s', p).left;
    assert all[0] == r.stats && all[1..] == r.extra;
    forall q: nat ensures ProcOk(s', q, h) { assert ProcOk(s, q, h); }
  }

  lemma WriteKeeps(s: State, p: nat, h: Header, base: seq<Record>)
    requires Inv(s, h, base) && Get(s, p).Running? && Get(s, p).left != []
    ensures Inv(Next(s, WriteBlock(p), h), h, base)
  {
    hide FileBlocks, WriterBlocks, EncodeHeader, EncodeRecords, WellShaped, AllShaped, Flatten;
    assert ProcOk(s, p, h);
    var q, s' := Get(s, p), Next(s, WriteBlock(p), h);
    var written, left := q.written + [q.left[0]], q.left[1..];
    assert written + left == q.written + q.left;
    if left == [] {
      assert written + [] == written;
      LastBlock(h, base + s.log, q.written, q.left[0], FileFrame(h));
      assert base + s'.log == base + s.log + [Record(written[0], written[1..])];
    } else {
      OneMoreBlock(EncodeHeader(h) + EncodeRecords(base + s.log), q.written, q.left[0]);
    }
    forall q': nat ensures ProcOk(s', q', h) { assert ProcOk(s, q', h); }
  }

  lemma OneMoreBlock(start: seq<byte>, written: seq<seq<byte>>, block: seq<byte>)
    ensures start + Flatten(written) + block == start + Flatten(written + [block])
  {
    FlattenAppend(written, [block]);
    assert Flatten([block]) == block + [];
    assert start + (Flatten(written) + block) == start + Flatten(written) + block;
  }

  lemma LastBlock(h: Header, recs: seq<Record>, written: seq<seq<byte>>, block: seq<byte>, f: Frame)
    requires AllShaped(f, recs)
    requires var all := written + [block]; WellShaped(f, Record(all[0], all[1..]))
    ensures var all := written + [block]; var r := Record(all[0], all[1..]);
            && EncodeHeader(h) + EncodeRecords(recs) + Flatten(written) + block ==
               EncodeHeader(h) + EncodeRecords(recs + [r]) + Flatten([])
            && AllShaped(f, recs + [r])
  {
    hide EncodeHeader, WellShaped;
    var all := written + [block];
    var r := Record(all[0], all[1..]);
    var start := EncodeHeader(h) + EncodeRecords(recs);
    OneMoreBlock(start, written, block);
    EncodeAppend(recs, [r]);
    assert EncodeRecords([r]) == EncodeRecord(r) + EncodeRecords([]);
    assert Flatten(all) == EncodeRecord(r);
    assert start + EncodeRecord(r) == EncodeHeader(h) + EncodeRecords(recs + [r]);
  }

  /** A collector that comes from another file does not believe to hold the lock: it has never held one. */
  predicate Honest(step: Step) {
    step.RotatedIn? ==> !step.believes
  }

  predicate AllHonest(steps: seq<Step>) {
    forall i :: 0 <= i < |steps| ==> Honest(steps[i])
  }

  /** No step of any collector breaks the invariant. */
  lemma StepKeeps(s: State, step: Step, h: Header, base: seq<Record>)
    requires Inv(s, h, base) && Honest(step)
    ensures Inv(Next(s, step, h), h, base)
  {
    hide EncodeHeader, RecordOf, Stamp;
    match step
    case Start(p, c) =>
      StartKeeps(s, p, c, h, base);
    case RotatedIn(p, c, _) =>
      StartKeeps(s, p, c, h, base);
      assert Next(s, step, h) == Next(s, Start(p, c), h);
    case Sampled(p, sample) =>
      if CanLock(s, p) {
        assert ProcOk(s, p, h);
        RecordFits(Get(s, p).counts, sample, R_STATS);
        BeginKeeps(s, p, RecordOf(Get(s, p).counts, sample, R_STATS), h, base);
      }
    case Restarted(p, time) =>
      if CanLock(s, p) {
        BeginKeeps(s, p, Record(Stamp(time, R_DUMMY), []), h, base);
      } else {
        EndKeeps(s, p, h, base);
      }
    case WriteBlock(p) =>
      if Get(s, p).Running? && Get(s, p).left != [] { WriteKeeps(s, p, h, base); }
    case Stop(p) =>
      EndKeeps(s, p, h, base);
  }

  lemma StartKeeps(s: State, p: nat, c: Counts, h: Header, base: seq<Record>)
    requires Inv(s, h, base)
    ensures Inv(Next(s, Start(p, c), h), h, base)
  {
    hide FileBlocks, WriterBlocks, EncodeHeader, WellShaped, AllShaped, ForceTo, Has;
    var s' := Next(s, Start(p, c), h);
    assert ProcOk(s, p, h);
    if h.proc == c.cpuNr { AppendFits(c.(pidNr := 0), h); }
    forall q: nat ensures ProcOk(s', q, h) { assert ProcOk(s, q, h); }
  }

  lemma EndKeeps(s: State, p: nat, h: Header, base: seq<Record>)
    requires Inv(s, h, base)
    ensures Inv(Next(s, Stop(p), h), h, base)
    ensures !CanLock(s, p) ==> forall time :: Inv(Next(s, Restarted(p, time), h), h, base)
  {
    hide FileBlocks, WriterBlocks, EncodeHeader, WellShaped, AllShaped;
    assert ProcOk(s, p, h);
    var s' := Next(s, Stop(p), h);
    if s.owner.Some? { assert ProcOk(s, s.owner.value, h); }
    forall q: nat ensures ProcOk(s', q, h) { assert ProcOk(s, q, h); }
    if !CanLock(s, p) {
      assert forall time :: Next(s, Restarted(p, time), h) == s';
    }
  }

  function RunSteps(s: State, steps: seq<Step>, h: Header): State
    decreases |steps|
  {
    if steps == [] then s else RunSteps(Next(s, steps[0], h), steps[1..], h)
  }

  /** Records begun over a run, in the order in which the lock let them begin. */
  function AllBegun(s: State, steps: seq<Step>, h: Header): seq<Record>
    decreases |steps|
  {
    if steps == [] then []
    else (match Begun(s, steps[0]) case Some(r) => [r] case None => []) + AllBegun(Next(s, steps[0], h), steps[1..], h)
  }

  /** The record the owner is in the middle of, if any. */
  ghost function Pending(s: State): seq<Record> {
    if s.owner.None? then []
    else
      var q := Get(s, s.owner.value);
      if q.Running? && q.left != [] then
        var all := q.written + q.left;
        [Record(all[0], all[1..])]
      else []
  }

  /** A record begun is either finished and in the log, or the one in the making. */
  lemma StepConserves(s: State, step: Step, h: Header, base: seq<Record>)
    requires Inv(s, h, base) && Honest(step)
    ensures var s' := Next(s, step, h);
            s'.log + Pending(s') == s.log + Pending(s) + match Begun(s, step) case Some(r) => [r] case None => []
  {
    hide FileBlocks, WriterBlocks, EncodeHeader, WellShaped, AllShaped, RecordOf, Stamp, ForceTo, EncodeRecords,
         Flatten;
    var p := step.p;
    assert ProcOk(s, p, h);
    match step
    case Sampled(_, sample) =>
      if CanLock(s, p) { BeginConserves(s, p, RecordOf(Get(s, p).counts, sample, R_STATS), h, base); }
    case Restarted(_, time) =>
      if CanLock(s, p) { BeginConserves(s, p, Record(Stamp(time, R_DUMMY), []), h, base); }
    case WriteBlock(_) =>
      if Get(s, p).Running? && Get(s, p).left != [] { WriteConserves(s, p, h, base); }
    case Start(_, _) =>
    case RotatedIn(_, _, _) =>
    case Stop(_) =>
  }

  lemma BeginConserves(s: State, p: nat, r: Record, h: Header, base: seq<Record>)
    requires Inv(s, h, base) && CanLock(s, p)
    ensures var s' := Begin(s, p, r); s'.log == s.log && Pending(s) == [] && Pending(s') == [r]
  {
    hide FileBlocks, WriterBlocks, EncodeHeader, WellShaped, AllShaped, EncodeRecords, Flatten;
    assert ProcOk(s, p, h);
    var q := Get(Begin(s, p, r), p);
    assert q.written + q.left == Chunks(r) && Chunks(r)[1..] == r.extra;
  }

  lemma WriteConserves(s: State, p: nat, h: Header, base: seq<Record>)
    requires Inv(s, h, base) && Get(s, p).Running? && Get(s, p).left != []
    ensures var s' := Next(s, WriteBlock(p), h); s'.log + Pending(s') == s.log + Pending(s)
  {
    hide FileBlocks, WriterBlocks, EncodeHeader, WellShaped, AllShaped, EncodeRecords, Flatten;
    assert ProcOk(s, p, h);
    var q := Get(s, p);
    var written, left := q.written + [q.left[0]], q.left[1..];
    assert written + left == q.written + q.left;
    if left == [] { assert written + [] == written; }
  }

  /** Whole runs, any interleaving: the invariant holds throughout, and the records in the file
      are exactly those begun under the lock, in that order; a collector that is refused the
      lock adds nothing. */
  lemma {:induction false} RunKeeps(s: State, steps: seq<Step>, h: Header, base: seq<Record>)
    requires Inv(s, h, base) && AllHonest(steps)
    ensures var t := RunSteps(s, steps, h);
            Inv(t, h, base) && t.log + Pending(t) == s.log + Pending(s) + AllBegun(s, steps, h)
    decreases |steps|
  {
    hide Inv, Next, Begun, Pending;
    if steps != [] {
      StepKeeps(s, steps[0], h, base);
      StepConserves(s, steps[0], h, base);
      RunKeeps(Next(s, steps[0], h), steps[1..], h, base);
    }
  }

  /** Whoever reads the file, at any moment, finds all finished records in order; between
      records the file is a complete activity file, within one it ends unexpectedly. */
  lemma ReadersView(s: State, h: Header, base: seq<Record>)
    requires Inv(s, h, base)
    ensures Partial(s) == [] ==> View(s.file) == Activity(h, base + s.log)
    ensures Partial(s) != [] ==> View(s.file) == Damaged(h)
    ensures |s.file| >= FILE_HDR_SIZE && ReadAll(FileFrame(h), s.file[FILE_HDR_SIZE..]).recs == base + s.log
  {
    hide DecodeHeader, EncodeHeader, FileBlocks, WriterBlocks, ReadRecord;
    var f, recs, part := FileFrame(h), base + s.log, Partial(s);
    ReadAllPrefix(f, recs, part);
    assert s.file[..FILE_HDR_SIZE] == EncodeHeader(h);
    assert s.file[FILE_HDR_SIZE..] == EncodeRecords(recs) + part;
    HeaderRoundTrip(h);
    if part == [] {
      ReadAllEncoded(f, []);
    } else {
      PartialIsCut(s, h, base);
    }
  }

  /** From any existing activity file: whatever the collectors do and however they are
      scheduled, the file grows by exactly the records begun under the lock. */
  lemma Interleavings(b: seq<byte>, steps: seq<Step>, h: Header, base: seq<Record>)
    requires View(b) == Activity(h, base) && Sane(h) && AllHonest(steps)
    ensures var s := State(b, None, map[], []);
            var t := RunSteps(s, steps, h);
            && t.log + Pending(t) == AllBegun(s, steps, h)
            && (Pending(t) == [] ==> View(t.file) == Activity(h, base + AllBegun(s, steps, h)))
            && |t.file| >= FILE_HDR_SIZE
            && ReadAll(FileFrame(h), t.file[FILE_HDR_SIZE..]).recs == base + t.log
  {
    hide View, EncodeHeader, FileBlocks, RunSteps, AllBegun, ReadAll, Inv, Pending, Partial;
    var s := State(b, None, map[], []);
    Beginning(b, h, base);
    RunKeeps(s, steps, h, base);
    var t := RunSteps(s, steps, h);
    assert [] + [] + AllBegun(s, steps, h) == AllBegun(s, steps, h);
    ReadersView(t, h, base);
    if Pending(t) == [] {
      NothingPending(t, h, base);
      assert t.log + [] == t.log;
    }
  }

  lemma Beginning(b: seq<byte>, h: Header, base: seq<Record>)
    requires View(b) == Activity(h, base) && Sane(h)
    ensures var s := State(b, None, map[], []); Inv(s, h, base) && Pending(s) == []
  {
    hide View, EncodeHeader, FileBlocks;
    ActivityFiles(b, h, base);
    assert base + [] == base && b == b + [];
  }

  lemma NothingPending(t: State, h: Header, base: seq<Record>)
    requires Inv(t, h, base) && Pending(t) == []
    ensures Partial(t) == []
  {
    hide EncodeHeader, FileBlocks, AllShaped;
    if t.owner.Some? { assert ProcOk(t, t.owner.value, h); }
  }

  lemma PartialIsCut(s: State, h: Header, base: seq<Record>)
    requires Inv(s, h, base) && Partial(s) != []
    ensures ReadRecord(FileFrame(h), Partial(s)) == Truncated
  {
    hide FileBlocks, WriterBlocks, ReadRecord, EncodeHeader;
    var f, p, part := FileFrame(h), s.owner.value, Partial(s);
    assert ProcOk(s, p, h);
    var q := Get(s, p);
    assert q.Running? && q.written != [];
    var all := q.written + q.left;
    var r := Record(all[0], all[1..]);
    FlattenAppend(q.written, q.left);
    assert EncodeRecord(r) == Flatten(all) == part + Flatten(q.left);
    assert part == EncodeRecord(r)[..|part|];
    BlocksPositive(h);
    LastBlocksCount(r, q.written, q.left, f);
    CutRecord(f, r, |part|);
  }

  /** Every block has a positive size, so a record with blocks still to come is incomplete. */
  lemma LastBlocksCount(r: Record, written: seq<seq<byte>>, left: seq<seq<byte>>, f: Frame)
    requires WellShaped(f, r) && [r.stats] + r.extra == written + left && left != [] && written != []
    requires Positive(f.blocks)
    ensures Flatten(left) != []
  {
    var i := |written| - 1;
    assert left[0] == ([r.stats] + r.extra)[|written|] == r.extra[i];
  }

  predicate Positive(sizes: seq<nat>) {
    forall i :: 0 <= i < |sizes| ==> sizes[i] > 0
  }

  lemma PositiveToo(sizes: seq<nat>, present: bool, size: nat)
    requires Positive(sizes) && (present ==> size > 0)
    ensures Positive(sizes + When(present, size))
  {}

  lemma BlocksPositive(h: Header)
    ensures Positive(FileBlocks(h))
  {
    hide Has, When, Positive;
    var irq, irqcpu := Has(h.actflag, A_ONE_IRQ), STATS_IRQ_CPU_SIZE * (h.proc + 1) * h.irqcpu;
    assert h.irqcpu != 0 ==> irqcpu > 0;
    NoneIsPositive();
    PositiveToo([], h.proc > 0, STATS_ONE_CPU_SIZE * (h.proc + 1));
    var a := When(h.proc > 0, STATS_ONE_CPU_SIZE * (h.proc + 1));
    assert [] + a == a;
    PositiveToo(a, irq, STATS_ONE_IRQ_SIZE);
    a := a + When(irq, STATS_ONE_IRQ_SIZE);
    PositiveToo(a, h.serial != 0, STATS_SERIAL_SIZE * h.serial);
    a := a + When(h.serial != 0, STATS_SERIAL_SIZE * h.serial);
    PositiveToo(a, h.irqcpu != 0, irqcpu);
    a := a + When(h.irqcpu != 0, irqcpu);
    PositiveToo(a, h.iface != 0, STATS_NET_DEV_SIZE * h.iface);
    a := a + When(h.iface != 0, STATS_NET_DEV_SIZE * h.iface);
    PositiveToo(a, h.nrDisk != 0, DISK_STATS_SIZE * h.nrDisk);
  }

  lemma NoneIsPositive()
    ensures Positive([])
  {}

  // ---------- rotation ----------

  /** One structure to a record: a single write. */
  predicate OneBlock(h: Header) {
    FileBlocks(h) == []
  }

  /** The invariant that is left if records are single writes: whole records, whoever writes them. */
  ghost predicate Whole(s: State, h: Header, base: seq<Record>) {
    && AllShaped(FileFrame(h), base + s.log)
    && s.file == EncodeHeader(h) + EncodeRecords(base + s.log)
    && forall p: nat :: OneWrite(Get(s, p), h)
  }

  predicate OneWrite(q: Proc, h: Header) {
    q.Running? ==>
      && WriterBlocks(q.counts) == FileBlocks(h) && q.written == []
      && (q.left == [] || (|q.left| == 1 && WellShaped(FileFrame(h), Record(q.left[0], []))))
  }

  lemma WholeStep(s: State, step: Step, h: Header, base: seq<Record>)
    requires Whole(s, h, base) && OneBlock(h) && Sane(h)
    ensures Whole(Next(s, step, h), h, base)
  {
    hide EncodeHeader, EncodeRecords, AllShaped, FileBlocks, WriterBlocks, ForceTo, Stamp, RecordOf, WellShaped, Has;
    var s', p := Next(s, step, h), step.p;
    assert OneWrite(Get(s, p), h);
    match step {
      case Start(_, c) => if h.proc == c.cpuNr { AppendFits(c.(pidNr := 0), h); }
      case RotatedIn(_, c, _) => if h.proc == c.cpuNr { AppendFits(c.(pidNr := 0), h); }
      case Sampled(_, sample) => if CanLock(s, p) { OneChunk(Get(s, p).counts, sample, h); }
      case Restarted(_, time) => MarkChunk(time, h);
      case WriteBlock(_) =>
        if Get(s, p).Running? && Get(s, p).left != [] {
          var b := Get(s, p).left[0];
          var one := [b];
          assert [] + one == one && one[1..] == [];
          LastBlock(h, base + s.log, [], b, FileFrame(h));
          var now, then' := base + s.log, base + s.log + [Record(b, [])];
          NoBytes(EncodeHeader(h) + EncodeRecords(now), EncodeHeader(h) + EncodeRecords(then'));
          assert base + s'.log == base + s.log + [Record(b, [])];
        }
      case Stop(_) =>
    }
    forall q: nat ensures OneWrite(Get(s', q), h) { assert OneWrite(Get(s, q), h); }
  }

  lemma NoBytes(a: seq<byte>, b: seq<byte>)
    ensures a + Flatten([]) == a && b + Flatten([]) == b
  {}

  lemma OneChunk(c: Counts, sample: Sample, h: Header)
    requires WriterBlocks(c) == FileBlocks(h) == [] && Sane(h)
    ensures var r := RecordOf(c, sample, R_STATS);
            r.extra == [] && Chunks(r) == [r.stats] && WellShaped(FileFrame(h), r)
  {
    hide WriterBlocks, FileBlocks;
    RecordFits(c, sample, R_STATS);
  }

  lemma MarkChunk(time: seq<byte>, h: Header)
    requires Sane(h)
    ensures var r := Record(Stamp(time, R_DUMMY), []); Chunks(r) == [r.stats] && WellShaped(FileFrame(h), r)
  {
    hide FileBlocks;
  }

  lemma {:induction false} WholeRun(s: State, steps: seq<Step>, h: Header, base: seq<Record>)
    requires Whole(s, h, base) && OneBlock(h) && Sane(h)
    ensures Whole(RunSteps(s, steps, h), h, base)
    decreases |steps|
  {
    hide Whole, Next, OneBlock;
    if steps != [] {
      WholeStep(s, steps[0], h, base);
      WholeRun(Next(s, steps[0], h), steps[1..], h, base);
    }
  }

  /** Where a record is one write no rotation does harm: the file is whole at every moment. */
  lemma SingleWritesSafe(b: seq<byte>, steps: seq<Step>, h: Header, base: seq<Record>)
    requires View(b) == Activity(h, base) && Sane(h) && OneBlock(h)
    ensures var t := RunSteps(State(b, None, map[], []), steps, h); View(t.file) == Activity(h, base + t.log)
  {
    hide View, EncodeHeader, FileBlocks, AllShaped, RunSteps;
    var s := State(b, None, map[], []);
    ActivityFiles(b, h, base);
    assert base + [] == base;
    WholeRun(s, steps, h, base);
    var t := RunSteps(s, steps, h);
    ActivityFiles(t.file, h, base + t.log);
  }

  lemma {:induction false} FileGrows(s: State, steps: seq<Step>, h: Header)
    ensures s.file <= RunSteps(s, steps, h).file
    decreases |steps|
  {
    hide CanLock, ForceTo, RecordOf, Stamp;
    if steps != [] { FileGrows(Next(s, steps[0], h), steps[1..], h); }
  }

  /** A collector in the middle of a record, under the lock, and another that comes from yesterday's
      file and believes to hold it. */
  function Intrusion(c: Counts, mine: Sample, other: Sample): seq<Step> {
    [Start(1, c), Sampled(1, mine), WriteBlock(1), RotatedIn(2, c, true), Sampled(2, other), WriteBlock(2)]
  }

  const ZEROS := Sample([], [], [], [], [], [], [], [])
  const ONES := Sample([1], [], [], [], [], [], [], [])

  lemma IntrusionFile(b: seq<byte>, c: Counts, h: Header, r1: Record, r2: Record)
    requires h.proc == c.cpuNr && WriterBlocks(ForceTo(c.(pidNr := 0), h)) != []
    requires r1 == RecordOf(ForceTo(c.(pidNr := 0), h), ZEROS, R_STATS)
    requires r2 == RecordOf(ForceTo(c.(pidNr := 0), h), ONES, R_STATS)
    ensures RunSteps(State(b, None, map[], []), Intrusion(c, ZEROS, ONES), h).file == b + r1.stats + r2.stats
  {
    hide ForceTo, WriterBlocks, Payload, Stamp;
    var c', steps := ForceTo(c.(pidNr := 0), h), Intrusion(c, ZEROS, ONES);
    PayloadFits(c', ZEROS);
    PayloadFits(c', ONES);
    var s0 := State(b, None, map[], []);
    var s1 := Next(s0, steps[0], h);
    assert s1 == State(b, None, map[1 := Running(c', false, [], [])], []);
    var s2 := Next(s1, steps[1], h);
    assert s2 == State(b, Some(1), map[1 := Running(c', true, [], Chunks(r1))], []);
    var s3 := Next(s2, steps[2], h);
    var q1 := Running(c', true, [r1.stats], r1.extra);
    assert Chunks(r1)[1..] == r1.extra && [] + [r1.stats] == [r1.stats];
    assert s3 == State(b + r1.stats, Some(1), map[1 := q1], []);
    var s4 := Next(s3, steps[3], h);
    assert s4 == State(b + r1.stats, Some(1), map[1 := q1, 2 := Running(c', true, [], [])], []);
    var s5 := Next(s4, steps[4], h);
    assert s5 == State(b + r1.stats, Some(1), map[1 := q1, 2 := Running(c', true, [], Chunks(r2))], []);
    var s6 := Next(s5, steps[5], h);
    assert s6.file == b + r1.stats + r2.stats;
    SixSteps(s0, steps, h, s1, s2, s3, s4, s5, s6);
  }

  lemma SixSteps(s0: State, steps: seq<Step>, h: Header, s1: State, s2: State, s3: State, s4: State, s5: State,
                 s6: State)
    requires |steps| == 6
    requires s1 == Next(s0, steps[0], h) && s2 == Next(s1, steps[1], h) && s3 == Next(s2, steps[2], h)
    requires s4 == Next(s3, steps[3], h) && s5 == Next(s4, steps[4], h) && s6 == Next(s5, steps[5], h)
    ensures RunSteps(s0, steps, h) == s6
  {
    hide Next;
    assert steps[1..][1..] == steps[2..] && steps[2..][1..] == steps[3..] && steps[3..][1..] == steps[4..];
    assert steps[4..][1..] == steps[5..] && steps[5..][1..] == [];
    assert RunSteps(s5, steps[5..], h) == s6;
    assert RunSteps(s4, steps[4..], h) == s6;
    assert RunSteps(s3, steps[3..], h) == s6;
    assert RunSteps(s2, steps[2..], h) == s6;
  }

  lemma {:induction false} RunAppend(s: State, a: seq<Step>, b: seq<Step>, h: Header)
    ensures RunSteps(s, a + b, h) == RunSteps(RunSteps(s, a, h), b, h)
    decreases |a|
  {
    hide Next;
    if a == [] {
      assert a + b == b;
    } else {
      assert (a + b)[0] == a[0] && (a + b)[1..] == a[1..] + b;
      RunAppend(Next(s, a[0], h), a[1..], b, h);
    }
  }

  /** Where a record is several writes, a rotated collector can destroy one: there is a schedule after
      which neither record is in its place, whatever any collector does later. */
  lemma RotationBreaks(b: seq<byte>, h: Header, base: seq<Record>, c: Counts, later: seq<Step>, rest: seq<Record>)
    requires View(b) == Activity(h, base) && Sane(h) && !OneBlock(h) && h.proc == c.cpuNr
    ensures var c' := ForceTo(c.(pidNr := 0), h);
            var r1, r2 := RecordOf(c', ZEROS, R_STATS), RecordOf(c', ONES, R_STATS);
            var t := RunSteps(State(b, None, map[], []), Intrusion(c, ZEROS, ONES) + later, h);
            && t.file != EncodeHeader(h) + EncodeRecords(base + [r1] + rest)
            && t.file != EncodeHeader(h) + EncodeRecords(base + [r2] + rest)
  {
    hide View, EncodeHeader, FileBlocks, WriterBlocks, ForceTo, RunSteps, RecordOf, Intrusion, AllShaped, Has,
         EncodeRecord, WellShaped;
    var c', s := ForceTo(c.(pidNr := 0), h), State(b, None, map[], []);
    var r1, r2 := RecordOf(c', ZEROS, R_STATS), RecordOf(c', ONES, R_STATS);
    AppendFits(c.(pidNr := 0), h);
    ActivityFiles(b, h, base);
    IntrusionFile(b, c, h, r1, r2);
    RunAppend(s, Intrusion(c, ZEROS, ONES), later, h);
    FileGrows(RunSteps(s, Intrusion(c, ZEROS, ONES), h), later, h);
    var file := RunSteps(s, Intrusion(c, ZEROS, ONES) + later, h).file;
    FirstBytes(c');
    RecordPlace(h, base, r1, rest, b);
    RecordPlace(h, base, r2, rest, b);
    assert file[|b|] == r1.stats[0] && file[|b| + FILE_STATS_SIZE] == r2.stats[0];
  }

  /** What distinguishes the two records. */
  lemma FirstBytes(c: Counts)
    requires WriterBlocks(c) != []
    ensures var r1, r2 := RecordOf(c, ZEROS, R_STATS), RecordOf(c, ONES, R_STATS);
            && |r1.stats| == |r2.stats| == FILE_STATS_SIZE && r1.stats[0] == 0 && r2.stats[0] == 1
            && |EncodeRecord(r1)| > FILE_STATS_SIZE && EncodeRecord(r1)[FILE_STATS_SIZE] == 0
            && |EncodeRecord(r2)| > FILE_STATS_SIZE && EncodeRecord(r1)[0] == 0 && EncodeRecord(r2)[0] == 1
  {
    hide WriterBlocks, Payload, Flatten;
    FirstPayload(c, ZEROS);
    FirstPayload(c, ONES);
  }

  lemma FirstPayload(c: Counts, s: Sample)
    requires WriterBlocks(c) != []
    requires s.cpu == s.irq == s.pid == s.serial == s.irqcpu == s.iface == s.disk == []
    ensures |Flatten(Payload(c, s))| > 0 && Flatten(Payload(c, s))[0] == 0
  {
    hide FitTo, Has, When, WriterBlocks;
    PayloadFits(c, s);
    ZeroBlocks(c, s);
    var p := Payload(c, s);
    assert p[0] in p;
  }

  lemma ZeroBlocks(c: Counts, s: Sample)
    requires s.cpu == s.irq == s.pid == s.serial == s.irqcpu == s.iface == s.disk == []
    ensures forall b :: b in Payload(c, s) ==> |b| > 0 && b[0] == 0
  {
    hide Has;
    assert c.irqcpuNr != 0 ==> STATS_IRQ_CPU_SIZE * (c.cpuNr + 1) * c.irqcpuNr > 0;
  }

  lemma RecordPlace(h: Header, base: seq<Record>, r: Record, rest: seq<Record>, b: seq<byte>)
    requires b == EncodeHeader(h) + EncodeRecords(base)
    ensures var file := EncodeHeader(h) + EncodeRecords(base + [r] + rest);
            |file| >= |b| + |EncodeRecord(r)| && file[|b|..|b| + |EncodeRecord(r)|] == EncodeRecord(r)
  {
    hide EncodeHeader, EncodeRecord;
    assert base + [r] + rest == base + ([r] + rest);
    EncodeAppend(base, [r] + rest);
    assert ([r] + rest)[1..] == rest;
    var tail := EncodeRecords(rest);
    assert EncodeRecords([r] + rest) == EncodeRecord(r) + tail;
    assert EncodeHeader(h) + (EncodeRecords(base) + (EncodeRecord(r) + tail)) == b + (EncodeRecord(r) + tail);
    Middle(b, EncodeRecord(r), tail);
  }
}
