/** The collector: opening, locking, appending, rotating (sadc.c), for any number of runs
    one after the other on the same files, and sar at the other end of its pipe. */
module Sadc {
  import opened Bytes
  import opened Framing
  import opened SaFormat
  import opened SaFlags
  import opened SaCounts
  import opened SaBlocks
  import opened SarPipe
  import opened Collecting
  import opened CollectingPipe

  /** The files named by sadc's command lines. */
  class FileSystem {
    var files: map<string, seq<byte>>

    function Content(name: string): seq<byte>
      reads this
    {
      if name in files then files[name] else []
    }

    /** What sar makes of each file. */
    ghost function Views(): Disk
      reads this
    {
      map name | name in files :: View(files[name])
    }

    constructor (files: map<string, seq<byte>>)
      ensures this.files == files
    {
      this.files := files;
    }

    /** ftruncate and the writing of a new header. */
    method Create(name: string, h: Header)
      requires h.magic == SA_MAGIC
      modifies this
      ensures Views() == old(Views())[name := Activity(h, [])]
    {
      hide View, EncodeHeader;
      FreshFile(h);
      files := files[name := EncodeHeader(h)];
    }

    /** The writes of one record at the end of a file. */
    method Append(name: string, bytes: seq<byte>, ghost r: Record)
      requires Find(Views(), name).Activity?
      requires WellShaped(FileFrame(Find(Views(), name).hdr), r) && bytes == EncodeRecord(r)
      modifies this
      ensures var v := Find(old(Views()), name); Views() == old(Views())[name := Activity(v.hdr, v.recs + [r])]
    {
      hide View, EncodeRecord, WellShaped;
      AppendRecord(files[name], r);
      files := files[name := files[name] + bytes];
    }
  }

  /** Whole files are headers followed by whole records, byte by byte. */
  lemma FilesAreWhole(fs: FileSystem, name: string)
    requires Whole(fs.Views())
    ensures fs.Content(name) == [] || Find(fs.Views(), name).Foreign? || Find(fs.Views(), name).Activity?
    ensures var v := Find(fs.Views(), name);
            v.Activity? ==> fs.Content(name) == EncodeHeader(v.hdr) + EncodeRecords(v.recs)
  {
    hide EncodeHeader, DecodeHeader, FileBlocks, ReadAll;
    if name in fs.files {
      var v := View(fs.files[name]);
      if v.Activity? { ActivityFiles(fs.files[name], v.hdr, v.recs); }
    }
  }

  datatype Flock = Granted | WouldBlock | Fatal

  class Collector {
    const fs: FileSystem
    const o: Options
    var counts: Counts
    var ofile: string      // empty: none
    var isOpen: bool
    var locked: bool       // S_F_FILE_LCK
    var stdout: seq<byte>
    ghost var pipe: seq<Item>
    ghost var log: seq<Event>

    ghost function State(): World
      reads this, fs
    {
      World(fs.Views(), counts, ofile, locked, pipe, log)
    }

    /** The files are whole and what is written to the one that is open fits it. */
    ghost predicate Valid()
      reads this, fs
    {
      && Startable(State())
      && (isOpen ==> ofile != "" && FitsFile(State()))
      && stdout == EncodeItems(pipe)
    }

    constructor (fs: FileSystem, o: Options, counts: Counts, ofile: string)
      requires Whole(fs.Views()) && (ofile != "" ==> counts.pidNr == 0)
      ensures this.fs == fs && this.o == o && !isOpen && Valid()
      ensures State() == World(fs.Views(), counts, ofile, false, [], [])
    {
      this.fs, this.o, this.counts, this.ofile := fs, o, counts, ofile;
      isOpen, locked, stdout, pipe, log := false, false, [], [], [];
    }

    /** sadc.c: ask_for_flock; `busy` says that another process holds the lock. */
    method AskForFlock(busy: bool, fatal: bool) returns (r: Flock)
      modifies this`locked
      ensures r.Granted? <==> !(o.useL && busy)
      ensures !r.Granted? ==> (r.Fatal? <==> fatal)
      ensures locked == (old(locked) || (o.useL && !busy))
    {
      if o.useL {
        if busy {
          return if fatal then Fatal else WouldBlock;
        }
        locked := true;
      }
      r := Granted;
    }

    /** sadc.c: create_sa_file. */
    method CreateSaFile(busy: bool, time: Time, ident: Ident) returns (r: Outcome)
      requires Valid() && ofile != ""
      modifies this`locked, this`isOpen, this`log, fs
      ensures Valid() && Result(State(), r) == Collecting.Create(o, old(State()), busy, time, ident)
      ensures isOpen == r.Done?
      ensures r.Done? <==> !(o.useL && busy)
    {
      hide View, SameBlocks, FileBlocks, WriterBlocks, Has, EncodeItems;
      ghost var was := State();
      CreateKeeps(o, was, busy, time, ident);
      isOpen := false;
      var l := AskForFlock(busy, true);
      if !l.Granted? {
        return Exit(1);
      }
      var h := HeaderOf(counts, time, ident);
      fs.Create(ofile, h);
      log := log + [Created(ofile, h)];
      isOpen := true;
      r := Done;
      assert State() == Collecting.Create(o, was, busy, time, ident).w;
    }

    /** sadc.c: open_ofile. Afterwards every record formed with the counts then in force fits
        the file: one just created, or one whose characteristics were taken over. */
    method OpenOfile(busy: bool, time: Time, ident: Ident) returns (r: Outcome)
      requires Valid()
      modifies this`counts, this`locked, this`isOpen, this`log, fs
      ensures Valid() && Result(State(), r) == Open(o, old(State()), busy, time, ident)
      ensures isOpen == (r.Done? && ofile != "")
      ensures r.Done? <==> ofile == "" || Opens(o, Find(old(fs.Views()), ofile), busy, old(counts.cpuNr))
    {
      hide SameBlocks, FileBlocks, WriterBlocks, Has, EncodeItems, View, DecodeHeader, Create, HeaderOf;
      OpenKeeps(o, State(), busy, time, ident);
      OpenIff(o, State(), busy, time, ident);
      isOpen := false;
      if ofile == "" {
        return Done;
      }
      var content := if ofile in fs.files then fs.files[ofile] else [];
      HeaderInView(content);
      if |content| == 0 {
        r := CreateSaFile(busy, time, ident);
        return;
      }
      if |content| < FILE_HDR_SIZE || DecodeHeader(content[..FILE_HDR_SIZE]).magic != SA_MAGIC {
        if o.useF {
          r := CreateSaFile(busy, time, ident);
          return;
        }
        return Exit(3);
      }
      var h := DecodeHeader(content[..FILE_HDR_SIZE]);
      r := Adopt(h, busy, time, ident);
    }

    /** The part of open_ofile for a true activity file: its flags prevail, then its counts. */
    method Adopt(h: Header, busy: bool, time: Time, ident: Ident) returns (r: Outcome)
      requires Valid() && !isOpen && ofile != "" && Find(fs.Views(), ofile).Activity?
      requires Find(fs.Views(), ofile).hdr == h
      modifies this`counts, this`locked, this`isOpen, this`log, fs
      ensures Valid() && Result(State(), r) == TakeOver(o, old(State()), h, busy, time, ident)
      ensures isOpen == r.Done?
    {
      hide SameBlocks, FileBlocks, WriterBlocks, Has, EncodeItems, View, DecodeHeader, Create, HeaderOf;
      ghost var was := State();
      counts := counts.(actflag := h.actflag);
      if h.proc != counts.cpuNr {
        if o.useF {
          r := CreateSaFile(busy, time, ident);
          return;
        }
        return Exit(1);
      }
      counts := counts.(serialNr := h.serial, ifaceNr := h.iface, irqcpuNr := h.irqcpu);
      if h.nrDisk != counts.diskNr {
        if h.nrDisk == 0 {
          counts := counts.(actflag := Clear(counts.actflag, A_DISK));
        } else {
          counts := counts.(diskNr := h.nrDisk);
        }
      }
      assert Sane(h);
      ForcedTells(was.counts, h);
      isOpen := true;
      r := Done;
    }

    /** The bytes of write_stats: the structure, then each block the counts call for. */
    method FormRecord(s: Sample, rtype: byte) returns (out: seq<byte>)
      ensures out == EncodeRecord(RecordOf(counts, s, rtype))
      ensures Conveys(out, counts, s, rtype)
    {
      hide EncodeRecord, RecordOf, Conveys;
      out := StructureAndBlocks(s, rtype);
      RecordConveys(counts, s, rtype);
    }

    method StructureAndBlocks(s: Sample, rtype: byte) returns (out: seq<byte>)
      ensures out == EncodeRecord(RecordOf(counts, s, rtype))
    {
      hide Stamp, Has, Block, Flatten;
      var c, head := counts, Stamp(s.stats, rtype);
      var irq, disk := Has(c.actflag, A_ONE_IRQ), c.diskNr != 0 && Has(c.actflag, A_DISK);
      var one, irqcpu := STATS_ONE_CPU_SIZE * (c.cpuNr + 1), STATS_IRQ_CPU_SIZE * (c.cpuNr + 1) * c.irqcpuNr;
      FlattenNothing(head);
      ghost var p: seq<seq<byte>> := [];
      out := WriteBlock(head, c.cpuNr > 0, s.cpu, one, head, p);
      p := Block(c.cpuNr > 0, s.cpu, one);
      assert [] + p == p;
      out := WriteBlock(out, irq, s.irq, STATS_ONE_IRQ_SIZE, head, p);
      p := p + Block(irq, s.irq, STATS_ONE_IRQ_SIZE);
      out := WriteBlock(out, c.pidNr != 0, s.pid, PID_STATS_SIZE * c.pidNr, head, p);
      p := p + Block(c.pidNr != 0, s.pid, PID_STATS_SIZE * c.pidNr);
      out := WriteBlock(out, c.serialNr != 0, s.serial, STATS_SERIAL_SIZE * c.serialNr, head, p);
      p := p + Block(c.serialNr != 0, s.serial, STATS_SERIAL_SIZE * c.serialNr);
      out := WriteBlock(out, c.irqcpuNr != 0, s.irqcpu, irqcpu, head, p);
      p := p + Block(c.irqcpuNr != 0, s.irqcpu, irqcpu);
      out := WriteBlock(out, c.ifaceNr != 0, s.iface, STATS_NET_DEV_SIZE * c.ifaceNr, head, p);
      p := p + Block(c.ifaceNr != 0, s.iface, STATS_NET_DEV_SIZE * c.ifaceNr);
      out := WriteBlock(out, disk, s.disk, DISK_STATS_SIZE * c.diskNr, head, p);
    }

    /** One record at the end of the output file. */
    method Put(bytes: seq<byte>, ghost r: Record)
      requires Valid() && isOpen && bytes == EncodeRecord(r)
      requires WellShaped(FileFrame(Find(fs.Views(), ofile).hdr), r)
      modifies this`log, fs
      ensures Valid() && isOpen && State() == Appended(old(State()), r)
    {
      hide View, SameBlocks, FileBlocks, WriterBlocks, EncodeItems, EncodeRecord, WellShaped;
      fs.Append(ofile, bytes, r);
      log := log + [Wrote(ofile, Find(fs.Views(), ofile).hdr, r)];
    }

    /** sadc.c: write_stats on the output file. Nothing at all is written if the lock cannot be had. */
    method WriteStats(s: Sample, busy: bool) returns (written: bool)
      requires Valid() && isOpen
      modifies this`locked, this`log, fs
      ensures Valid() && isOpen && State() == WriteTo(o, old(State()), s, busy)
      ensures written == !Refused(o, old(State()), busy)
    {
      hide View, SameBlocks, FileBlocks, WriterBlocks, EncodeItems, EncodeRecord, RecordOf, Appended;
      ghost var was := State();
      if !locked {
        var l := AskForFlock(busy, false);
        if !l.Granted? {
          return false;
        }
      }
      var bytes := FormRecord(s, R_STATS);
      RecordFits(counts, s, R_STATS);
      FrameOfFile(State());
      ghost var r := RecordOf(counts, s, R_STATS);
      AppendedLock(was, r, locked);
      Put(bytes, r);
      written := true;
    }

    /** sadc.c: write_dummy_record. */
    method WriteDummyRecord(time: seq<byte>, busy: bool) returns (r: Outcome)
      requires Valid() && isOpen
      modifies this`locked, this`log, fs
      ensures Valid() && Result(State(), r) == Mark(o, old(State()), time, busy)
    {
      hide View, SameBlocks, FileBlocks, WriterBlocks, EncodeItems, Stamp, Appended;
      ghost var was := State();
      if !locked {
        var l := AskForFlock(busy, true);
        if !l.Granted? {
          return Exit(1);
        }
      }
      var stats := Stamp(time, R_DUMMY);
      assert EncodeRecord(Record(stats, [])) == stats + [];
      FrameOfFile(State());
      AppendedLock(was, Record(stats, []), locked);
      Put(stats, Record(stats, []));
      r := Done;
    }

    /** sadc.c: write_stats on standard output, where no lock is asked for. */
    method EmitStats(s: Sample, rtype: byte)
      requires Valid() && o.toStdout
      modifies this`stdout, this`pipe
      ensures Valid() && State() == Send(o, old(State()), Rec(RecordOf(counts, s, rtype)))
    {
      hide View, SameBlocks, FileBlocks, WriterBlocks, EncodeRecord, RecordOf;
      var bytes := FormRecord(s, rtype);
      stdout := stdout + bytes;
      EmitItem(pipe, Rec(RecordOf(counts, s, rtype)));
      pipe := pipe + [Rec(RecordOf(counts, s, rtype))];
    }

    /** sadc.c: setup_file_hdr on standard output. */
    method EmitHeader(time: Time, ident: Ident)
      requires Valid() && o.toStdout
      modifies this`stdout, this`pipe
      ensures Valid() && State() == Send(o, old(State()), Hdr(HeaderOf(counts, time, ident)))
    {
      hide View, SameBlocks, FileBlocks, WriterBlocks, EncodeHeader, HeaderOf;
      stdout := stdout + EncodeHeader(HeaderOf(counts, time, ident));
      EmitItem(pipe, Hdr(HeaderOf(counts, time, ident)));
      pipe := pipe + [Hdr(HeaderOf(counts, time, ident))];
    }

    /** sadc.c: sa_sys_init. */
    method SaSysInit(m: Machine)
      requires Valid()
      modifies this`counts, this`isOpen
      ensures Valid() && !isOpen && State() == old(State()).(counts := SysInit(old(counts), m))
    {
      hide View, Has, EncodeItems;
      isOpen := false;
      var flags := counts.actflag;
      if m.serialNr != 0 { flags := SetFlag(flags, A_SERIAL); }
      if m.ifaceNr != 0 { flags := SetFlag(SetFlag(flags, A_NET_DEV), A_NET_EDEV); }
      counts := Counts(flags, m.cpuNr, m.serialNr, if m.cpuNr > 0 then m.irqcpuNr else 0,
                       m.ifaceNr, m.diskNr, counts.pidNr);
    }

    /** The first half of a turn of the main loop: the sample goes to standard output and to the file. */
    method CollectSample(t: Tick, last: bool)
      requires Valid() && (ofile != "" <==> isOpen)
      modifies this`stdout, this`pipe, this`locked, this`log, fs
      ensures Valid() && State() == Collect(o, old(State()), t, last)
    {
      hide View, SameBlocks, FileBlocks, WriterBlocks, RecordOf, EncodeItems, WriteTo, FitsFile;
      if o.toStdout {
        EmitStats(t.sample, if last then R_LAST_STATS else R_STATS);
      }
      if ofile != "" {
        var _ := WriteStats(t.sample, t.busy);
      }
    }

    /** The second half of a turn in which the files are rotated. */
    method RotateFiles(newFile: string, t: Tick) returns (r: Outcome)
      requires Valid() && isOpen && newFile != ""
      modifies this, fs
      ensures Valid() && Result(State(), r) == Rotate(o, old(State()), t, newFile)
      ensures r.Done? ==> isOpen
    {
      hide View, SameBlocks, FileBlocks, WriterBlocks, EncodeItems, WriteTo, Open, SetFlag, HeaderOf, FitsFile, Opens;
      isOpen := false;
      ofile := newFile;
      SaSysInit(t.machine);
      if o.toStdout {
        EmitHeader(t.time, t.ident);
      }
      assert State() == Turned(o, old(State()), t, newFile);
      r := OpenOfile(t.busyNew, t.time, t.ident);
      if r.Done? {
        var _ := WriteStats(t.sample, t.busyNew);
      }
    }

    /** One turn of the main loop; `next` is the file to rotate to, if any. */
    method OneTurn(t: Tick, next: Option<string>) returns (r: Outcome)
      requires Valid() && (ofile != "" <==> isOpen) && (next.Some? ==> next.value != "" && isOpen)
      modifies this, fs
      ensures Valid() && Result(State(), r) == Turn(o, old(State()), t, next)
      ensures r.Done? ==> (ofile != "" <==> isOpen)
    {
      hide View, SameBlocks, FileBlocks, WriterBlocks, EncodeItems, Collect, Rotate, FitsFile;
      CollectOthers(o, State(), t, next.Some?);
      CollectSample(t, next.Some?);
      r := Done;
      if next.Some? {
        r := RotateFiles(next.value, t);
      }
    }

    /** sadc.c: rw_sa_stat_loop. */
    method RwSaStatLoop(ticks: seq<Tick>, wantRotat: bool) returns (r: Outcome)
      requires Valid() && (ofile != "" <==> isOpen) && Rotatable(State(), ticks, None, wantRotat)
      modifies this, fs
      ensures Valid() && Result(State(), r) == Loop(o, old(State()), ticks, None, wantRotat)
    {
      hide View, EncodeItems, Turn, Valid, Rotatable, FitsFile;
      r := Done;
      var k, next := 0, None;
      ghost var goal := Loop(o, State(), ticks, next, wantRotat);
      assert ticks[0..] == ticks;
      while k < |ticks|
        invariant 0 <= k <= |ticks| && r.Done? && Valid() && (ofile != "" <==> isOpen)
        invariant Rotatable(State(), ticks[k..], next, wantRotat)
        invariant Loop(o, State(), ticks[k..], next, wantRotat) == goal
      {
        var t := ticks[k];
        assert ticks[k..][0] == t && ticks[k..][1..] == ticks[k + 1..];
        Needed(State(), ticks[k..], next, wantRotat);
        RotatableIf(o, State(), ticks[k..], next, wantRotat);
        r := OneTurn(t, next);
        if !r.Done? {
          return;
        }
        next := if wantRotat && ofile != t.today then Some(t.today) else None;
        k := k + 1;
      }
    }

    /** The end of main: the loop or, without an interval, a restart mark. */
    method ServeRun(run: Run) returns (r: Outcome)
      requires Valid() && (ofile != "" <==> isOpen) && ofile == run.ofile && ValidRun(run) && o == OptionsOf(run)
      modifies this, fs
      ensures Valid() && Result(State(), r) == Serve(run, old(State()))
    {
      hide View, EncodeItems, Loop, Mark, Valid, FitsFile;
      if run.interval {
        r := RwSaStatLoop(run.ticks, run.rotat);
      } else if isOpen {
        r := WriteDummyRecord(run.dummy, run.busyDummy);
      } else {
        r := Exit(2);
      }
    }
  }

  lemma RotatableIf(o: Options, w: World, ticks: seq<Tick>, next: Option<string>, rotat: bool)
    requires Rotatable(w, ticks, next, rotat) && ticks != []
    ensures var r := Turn(o, w, ticks[0], next);
            r.o.Done? ==> Rotatable(r.w, ticks[1..], Noticed(r.w.ofile, ticks[0], rotat), rotat)
  {
    hide Turn, Rotatable;
    if Turn(o, w, ticks[0], next).o.Done? { RotatableOn(o, w, ticks, next, rotat); }
  }

  lemma FrameOfFile(w: World)
    requires Whole(w.disk) && FitsFile(w)
    ensures FileFrame(Find(w.disk, w.ofile).hdr) == Frame(FILE_STATS_SIZE, WriterBlocks(w.counts))
  {
    FileTells(w.counts, Find(w.disk, w.ofile).hdr);
  }

  lemma AppendedLock(w: World, r: Record, locked: bool)
    ensures Appended(w.(locked := locked), r) == Appended(w, r).(locked := locked)
  {}

  /** sadc.c: main, after the options have been read. What it leaves in the files, what it sends and
      how it ends are given by the run and the files that it found. */
  method RunSadc(fs: FileSystem, run: Run) returns (r: Outcome, stdout: seq<byte>)
    requires Whole(fs.Views()) && ValidRun(run)
    modifies fs
    ensures var a := AfterRun(old(fs.Views()), run);
            fs.Views() == a.w.disk && r == a.o && stdout == EncodeItems(a.w.pipe)
    ensures Whole(fs.Views())
  {
    hide View, EncodeItems, Serve, Open, SetFlag, HeaderOf, FitsFile, Opens, Clear;
    var flags := if run.ofile == "" then run.actflag else Clear(run.actflag, A_PID);
    var pids := if run.ofile == "" then run.pidNr else 0;
    var c := new Collector(fs, OptionsOf(run), Counts(flags, 0, 0, 0, 0, 0, pids), run.ofile);
    c.SaSysInit(run.machine);
    assert c.State() == AtStart(old(fs.Views()), run);
    OpenOthers(c.o, c.State(), run.busyOpen, run.time, run.ident);
    r := c.OpenOfile(run.busyOpen, run.time, run.ident);
    if r.Done? {
      if c.o.toStdout {
        c.EmitHeader(run.time, run.ident);
      }
      r := c.ServeRun(run);
    }
    stdout := c.stdout;
  }

  /** Any number of collector runs, one after the other: in the end every file is what the runs make
      of the files that were there first. */
  method RunAll(fs: FileSystem, runs: seq<Run>)
    requires Whole(fs.Views()) && forall k :: 0 <= k < |runs| ==> ValidRun(runs[k])
    modifies fs
    ensures fs.Views() == AfterRuns(old(fs.Views()), runs) && Whole(fs.Views())
    ensures forall name: string :: View(fs.Content(name)) == Find(AfterRuns(old(fs.Views()), runs), name)
  {
    hide View, AfterRun;
    ghost var d := fs.Views();
    assert runs[..0] == [];
    for k := 0 to |runs|
      invariant fs.Views() == AfterRuns(d, runs[..k]) && Whole(fs.Views())
    {
      assert runs[..k + 1][..k] == runs[..k];
      var _, _ := RunSadc(fs, runs[k]);
    }
    assert runs[..|runs|] == runs;
    NoFile();
  }

  lemma NoFile()
    ensures View([]) == Empty
  {}

  /** sar with an interval: it starts sadc and reads its output, for every chunking of the pipe, up to
      its count or its end time. It gets a first part of what sadc sends, unmixed, exactly up to
      where its own count or end time is reached, if no rotation that is followed by another sample
      leads to a file with other blocks. */
  method Watch(fs: FileSystem, run: Run, count: int, late: Record -> bool, pids: bool)
    returns (got: seq<Item>, finished: bool)
    requires Whole(fs.Views()) && ValidRun(run) && SamePids(run, pids) && count != 0
    modifies fs
    ensures fs.Views() == AfterRun(old(fs.Views()), run).w.disk && Whole(fs.Views())
    ensures var sent := AfterRun(old(fs.Views()), run).w.pipe;
            var all := ReadItems(START, EncodeItems(sent), pids);
            && got == all[..Taken(all, count, late).used] && finished == Taken(all, count, late).finished
            && (all == sent <==> AllHarmless(RunRotations(old(fs.Views()), run)))
  {
    hide EncodeItems, AfterRun, View, AllHarmless, RunRotations, ReadItems, Taken;
    var _, stdout := RunSadc(fs, run);
    RunInStep(old(fs.Views()), run, pids);
    var p := new Pipe(stdout);
    got, finished := ReadStats(p, count, late, pids);
  }

  method WriteBlock(out: seq<byte>, present: bool, b: seq<byte>, size: nat,
                    ghost head: seq<byte>, ghost blocks: seq<seq<byte>>) returns (r: seq<byte>)
    requires out == head + Flatten(blocks)
    ensures r == head + Flatten(blocks + Block(present, b, size))
  {
    hide FitTo, Flatten;
    r := out;
    if present {
      r := r + FitTo(b, size);
      AppendBlock(head, blocks, FitTo(b, size));
    } else {
      assert blocks + [] == blocks;
    }
  }

  lemma AppendBlock(head: seq<byte>, blocks: seq<seq<byte>>, b: seq<byte>)
    ensures head + Flatten(blocks) + b == head + Flatten(blocks + [b])
  {
    hide Flatten;
    FlattenAppend(blocks, [b]);
    OneBlock(b);
  }

  lemma OneBlock(b: seq<byte>)
    ensures Flatten([b]) == b
  {
    assert Flatten([b]) == b + Flatten([]);
  }

  lemma HeaderInView(b: seq<byte>)
    ensures b == [] <==> View(b).Empty?
    ensures |b| >= FILE_HDR_SIZE ==>
              var h := DecodeHeader(b[..FILE_HDR_SIZE]);
              && (View(b).Foreign? <==> h.magic != SA_MAGIC)
              && (View(b).Activity? ==> View(b).hdr == h)
              && (View(b).Damaged? ==> View(b).hdr == h)
    ensures 0 < |b| < FILE_HDR_SIZE ==> View(b).Foreign?
  {
    hide ReadAll, DecodeHeader;
  }

  lemma FlattenNothing(head: seq<byte>)
    ensures head == head + Flatten([])
  {}

  lemma EmitItem(items: seq<Item>, i: Item)
    ensures EncodeItems(items + [i]) == EncodeItems(items) + Encode(i)
  {
    EncodeItemsAppend(items, [i]);
    assert EncodeItems([i]) == Encode(i) + EncodeItems([]);
  }
}
