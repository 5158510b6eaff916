/** What sadc does to the activity files and to its standard output, as a function of its command
    line, of what it samples and of the files it finds (sadc.c: main, rw_sa_stat_loop, open_ofile). */
module Collecting {
  import opened Bytes
  import opened Framing
  import opened SaFormat
  import opened SaFlags
  import opened SaCounts
  import opened SaBlocks
  import opened SarPipe

  // ---------- the files ----------

  type Disk = map<string, FileView>

  function Find(d: Disk, name: string): FileView {
    if name in d then d[name] else Empty
  }

  /** Absent, empty, not an activity file at all, or a header that sadc could have written followed
      by whole records. */
  predicate WholeFile(v: FileView) {
    !v.Damaged? && (v.Activity? ==> Sane(v.hdr))
  }

  predicate Whole(d: Disk) {
    forall name :: name in d ==> WholeFile(d[name])
  }

  /** What was done to the files: a new header, or one more record after the header that is there. */
  datatype Event = Created(name: string, h: Header) | Wrote(name: string, h: Header, r: Record)

  // ---------- the collector ----------

  /** The machine as sa_sys_init finds it. */
  datatype Machine = Machine(cpuNr: uint32, serialNr: uint32, irqcpuNr: uint32, ifaceNr: uint32, diskNr: uint32)

  /** One turn of the main loop: what is sampled, whether another process holds the lock, and
      the day file current when the collector wakes up again. The last four fields matter only
      if the files are rotated in this turn. */
  datatype Tick = Tick(sample: Sample, busy: bool, today: string,
                       machine: Machine, busyNew: bool, time: Time, ident: Ident)

  /** -F, -L, and whether there is a reader on standard output. */
  datatype Options = Options(useF: bool, useL: bool, toStdout: bool)

  datatype Outcome = Done | Exit(code: nat)

  /** `locked` is S_F_FILE_LCK: the collector believes that it holds the lock. */
  datatype World = World(disk: Disk, counts: Counts, ofile: string, locked: bool, pipe: seq<Item>, log: seq<Event>)

  datatype Result = Result(w: World, o: Outcome)

  /** sadc.c: sa_sys_init. */
  function SysInit(c: Counts, m: Machine): Counts {
    var serial := if m.serialNr != 0 then SetFlag(c.actflag, A_SERIAL) else c.actflag;
    var flags := if m.ifaceNr != 0 then SetFlag(SetFlag(serial, A_NET_DEV), A_NET_EDEV) else serial;
    Counts(flags, m.cpuNr, m.serialNr, if m.cpuNr > 0 then m.irqcpuNr else 0, m.ifaceNr, m.diskNr, c.pidNr)
  }

  /** sadc.c: create_sa_file. */
  function Create(o: Options, w: World, busy: bool, time: Time, ident: Ident): Result {
    if o.useL && busy then Result(w, Exit(1))
    else
      var h := HeaderOf(w.counts, time, ident);
      Result(w.(disk := w.disk[w.ofile := Activity(h, [])], locked := w.locked || o.useL,
                log := w.log + [Created(w.ofile, h)]), Done)
  }

  /** sadc.c: open_ofile. */
  function Open(o: Options, w: World, busy: bool, time: Time, ident: Ident): Result {
    if w.ofile == "" then Result(w, Done)
    else
      match Find(w.disk, w.ofile)
      case Empty => Create(o, w, busy, time, ident)
      case Foreign => if o.useF then Create(o, w, busy, time, ident) else Result(w, Exit(3))
      case Damaged(h) => TakeOver(o, w, h, busy, time, ident)
      case Activity(h, _) => TakeOver(o, w, h, busy, time, ident)
  }

  /** The flags of the file prevail, then its counts, unless it is another machine's. */
  function TakeOver(o: Options, w: World, h: Header, busy: bool, time: Time, ident: Ident): Result {
    var flagged := w.(counts := w.counts.(actflag := h.actflag));
    if h.proc == w.counts.cpuNr then Result(w.(counts := ForceTo(w.counts, h)), Done)
    else if o.useF then Create(o, flagged, busy, time, ident)
    else Result(flagged, Exit(1))
  }

  function Appended(w: World, r: Record): World {
    match Find(w.disk, w.ofile)
    case Activity(h, recs) =>
      w.(disk := w.disk[w.ofile := Activity(h, recs + [r])], log := w.log + [Wrote(w.ofile, h, r)])
    case _ => w
  }

  /** Another process holds the lock that the collector wants and does not believe to have. */
  predicate Refused(o: Options, w: World, busy: bool) {
    o.useL && busy && !w.locked
  }

  /** sadc.c: write_stats on the output file. */
  function WriteTo(o: Options, w: World, s: Sample, busy: bool): World {
    if Refused(o, w, busy) then w
    else Appended(w, RecordOf(w.counts, s, R_STATS)).(locked := w.locked || o.useL)
  }

  /** sadc.c: write_dummy_record. */
  function Mark(o: Options, w: World, time: seq<byte>, busy: bool): Result {
    if Refused(o, w, busy) then Result(w, Exit(1))
    else Result(Appended(w, Record(Stamp(time, R_DUMMY), [])).(locked := w.locked || o.useL), Done)
  }

  function Send(o: Options, w: World, i: Item): World {
    if o.toStdout then w.(pipe := w.pipe + [i]) else w
  }

  /** The first half of a turn: the sample goes to standard output, marked as the last one before
      a new header if the files are about to be rotated, and to the file. */
  function Collect(o: Options, w: World, t: Tick, last: bool): World {
    var sent := Send(o, w, Rec(RecordOf(w.counts, t.sample, if last then R_LAST_STATS else R_STATS)));
    if w.ofile != "" then WriteTo(o, sent, t.sample, t.busy) else sent
  }

  /** A new look at the machine, and a header to standard output before the new file is opened. */
  function Turned(o: Options, w: World, t: Tick, newFile: string): World {
    var c := SysInit(w.counts, t.machine);
    Send(o, w.(ofile := newFile, counts := c), Hdr(HeaderOf(c, t.time, t.ident)))
  }

  /** The second half of a turn in which the files are rotated: the same sample again. */
  function Rotate(o: Options, w: World, t: Tick, newFile: string): Result {
    var r := Open(o, Turned(o, w, t, newFile), t.busyNew, t.time, t.ident);
    if r.o.Done? then Result(WriteTo(o, r.w, t.sample, t.busyNew), Done) else r
  }

  function Turn(o: Options, w: World, t: Tick, next: Option<string>): Result {
    var w1 := Collect(o, w, t, next.Some?);
    if next.None? then Result(w1, Done) else Rotate(o, w1, t, next.value)
  }

  /** The day file to rotate to in the next turn, if any. */
  function Noticed(ofile: string, t: Tick, rotat: bool): Option<string> {
    if rotat && ofile != t.today then Some(t.today) else None
  }

  /** sadc.c: rw_sa_stat_loop. */
  function Loop(o: Options, w: World, ticks: seq<Tick>, next: Option<string>, rotat: bool): Result
    decreases |ticks|
  {
    if ticks == [] then Result(w, Done)
    else
      var r := Turn(o, w, ticks[0], next);
      if !r.o.Done? then r else Loop(o, r.w, ticks[1..], Noticed(r.w.ofile, ticks[0], rotat), rotat)
  }

  /** A command line and what the collector meets while it runs. */
  datatype Run = Run(actflag: uint32, pidNr: uint32, ofile: string, useF: bool, useL: bool, optz: bool,
                     rotat: bool, machine: Machine, busyOpen: bool, time: Time, ident: Ident,
                     interval: bool, dummy: seq<byte>, busyDummy: bool, ticks: seq<Tick>)

  /** What main sees to: rotation needs a file, and day files have names. */
  predicate ValidRun(run: Run) {
    && (run.rotat ==> run.ofile != "")
    && forall i :: 0 <= i < |run.ticks| ==> run.ticks[i].today != ""
  }

  /** -L is ignored without a file. */
  function OptionsOf(run: Run): Options {
    Options(run.useF, run.useL && run.ofile != "", run.ofile == "" || run.optz)
  }

  /** Processes are ignored with one. */
  function AtStart(d: Disk, run: Run): World {
    var c := if run.ofile == "" then Counts(run.actflag, 0, 0, 0, 0, 0, run.pidNr)
             else Counts(Clear(run.actflag, A_PID), 0, 0, 0, 0, 0, 0);
    World(d, SysInit(c, run.machine), run.ofile, false, [], [])
  }

  function Opening(d: Disk, run: Run): Result {
    Open(OptionsOf(run), AtStart(d, run), run.busyOpen, run.time, run.ident)
  }

  /** After the file and standard output have been opened. */
  function Ready(d: Disk, run: Run): World {
    var w := Opening(d, run).w;
    Send(OptionsOf(run), w, Hdr(HeaderOf(w.counts, run.time, run.ident)))
  }

  function Serve(run: Run, w: World): Result {
    if run.interval then Loop(OptionsOf(run), w, run.ticks, None, run.rotat)
    else if run.ofile != "" then Mark(OptionsOf(run), w, run.dummy, run.busyDummy)
    else Result(w, Exit(2))
  }

  /** sadc.c: main, after the options have been read. */
  function AfterRun(d: Disk, run: Run): Result {
    if Opening(d, run).o.Done? then Serve(run, Ready(d, run)) else Opening(d, run)
  }

  /** Any number of runs, one after the other. */
  function AfterRuns(d: Disk, runs: seq<Run>): Disk {
    if runs == [] then d
    else AfterRun(AfterRuns(d, runs[..|runs| - 1]), runs[|runs| - 1]).w.disk
  }

  // ---------- when a file can be opened ----------

  /** Empty files are created anew and files of this machine taken over; others are replaced under
      -F. Creating needs the lock under -L. */
  predicate Opens(o: Options, v: FileView, busy: bool, cpuNr: uint32) {
    match v
    case Empty => !(o.useL && busy)
    case Foreign => o.useF && !(o.useL && busy)
    case Damaged(h) => h.proc == cpuNr || (o.useF && !(o.useL && busy))
    case Activity(h, _) => h.proc == cpuNr || (o.useF && !(o.useL && busy))
  }

  /** Whether opening, if it succeeds, starts the file anew. */
  predicate Creates(v: FileView, cpuNr: uint32) {
    v.Activity? || v.Damaged? ==> v.hdr.proc != cpuNr
  }

  /** Counts after the file has been opened. */
  function Reopened(c: Counts, v: FileView): Counts {
    if v.Empty? || v.Foreign? then c
    else if v.hdr.proc != c.cpuNr then c.(actflag := v.hdr.actflag)
    else ForceTo(c, v.hdr)
  }

  /** When a file is opened, with what counts and lock; and how the collector exits if it is not. */
  lemma OpenIff(o: Options, w: World, busy: bool, time: Time, ident: Ident)
    ensures var r, v := Open(o, w, busy, time, ident), Find(w.disk, w.ofile);
            && (r.o.Done? <==> w.ofile == "" || Opens(o, v, busy, w.counts.cpuNr))
            && (r.o.Done? && w.ofile != "" ==> r.w.counts == Reopened(w.counts, v))
            && (!r.o.Done? ==> r.o.code == if v.Foreign? && !o.useF then 3 else 1)
            && r.w.pipe == w.pipe && r.w.ofile == w.ofile
            && r.w.locked == (w.locked || (o.useL && r.o.Done? && w.ofile != "" && Creates(v, w.counts.cpuNr)))
  {
    hide HeaderOf, ForceTo;
  }

  // ---------- every file stays whole ----------

  /** The counts in force call for the blocks that the file's header announces. */
  predicate FitsFile(w: World) {
    var v := Find(w.disk, w.ofile);
    v.Activity? && SameBlocks(w.counts, CountsIn(v.hdr, 0))
  }

  /** Whole files, and an output file, if any, that takes what will be written. */
  predicate Sound(w: World) {
    Whole(w.disk) && (w.ofile != "" ==> w.counts.pidNr == 0 && FitsFile(w))
  }

  predicate Startable(w: World) {
    Whole(w.disk) && (w.ofile != "" ==> w.counts.pidNr == 0)
  }

  lemma CreateKeeps(o: Options, w: World, busy: bool, time: Time, ident: Ident)
    requires Startable(w) && w.ofile != ""
    ensures var r := Create(o, w, busy, time, ident); Startable(r.w) && (r.o.Done? ==> Sound(r.w))
  {
    hide HeaderOf, FileBlocks, WriterBlocks, PipeBlocks, SameBlocks;
    HeaderAnnounces(w.counts, time, ident);
    HeaderTells(w.counts, time, ident);
  }

  lemma OpenKeeps(o: Options, w: World, busy: bool, time: Time, ident: Ident)
    requires Startable(w)
    ensures var r := Open(o, w, busy, time, ident); Startable(r.w) && (r.o.Done? ==> Sound(r.w))
  {
    hide Create, SameBlocks;
    if w.ofile != "" {
      CreateKeeps(o, w, busy, time, ident);
      var v := Find(w.disk, w.ofile);
      if v.Activity? {
        CreateKeeps(o, w.(counts := w.counts.(actflag := v.hdr.actflag)), busy, time, ident);
        if v.hdr.proc == w.counts.cpuNr { ForcedTells(w.counts, v.hdr); }
      }
    }
  }

  lemma AppendedKeeps(w: World, r: Record)
    requires Sound(w)
    ensures Sound(Appended(w, r))
  {
    hide SameBlocks;
  }

  lemma CollectKeeps(o: Options, w: World, t: Tick, last: bool)
    requires Sound(w)
    ensures Sound(Collect(o, w, t, last))
  {
    hide SameBlocks, RecordOf, Appended;
    var sent := Send(o, w, Rec(RecordOf(w.counts, t.sample, if last then R_LAST_STATS else R_STATS)));
    AppendedKeeps(sent, RecordOf(sent.counts, t.sample, R_STATS));
  }

  lemma TurnKeeps(o: Options, w: World, t: Tick, next: Option<string>)
    requires Sound(w) && (next.Some? ==> w.ofile != "" && next.value != "")
    ensures var r := Turn(o, w, t, next); Startable(r.w) && (r.o.Done? ==> Sound(r.w))
  {
    hide SameBlocks, RecordOf, Appended, Collect, HeaderOf, Open;
    var w1 := Collect(o, w, t, next.Some?);
    CollectKeeps(o, w, t, next.Some?);
    CollectOthers(o, w, t, next.Some?);
    if next.Some? {
      var w2 := Turned(o, w1, t, next.value);
      OpenKeeps(o, w2, t.busyNew, t.time, t.ident);
      var r := Open(o, w2, t.busyNew, t.time, t.ident);
      if r.o.Done? { AppendedKeeps(r.w, RecordOf(r.w.counts, t.sample, R_STATS)); }
    }
  }

  lemma CollectOthers(o: Options, w: World, t: Tick, last: bool)
    ensures var w1 := Collect(o, w, t, last); w1.ofile == w.ofile && w1.counts == w.counts
  {}

  lemma WriteToOthers(o: Options, w: World, s: Sample, busy: bool)
    ensures var w' := WriteTo(o, w, s, busy); w'.ofile == w.ofile && w'.counts == w.counts && w'.pipe == w.pipe
  {
    hide RecordOf;
  }

  lemma OpenOthers(o: Options, w: World, busy: bool, time: Time, ident: Ident)
    ensures var w' := Open(o, w, busy, time, ident).w; w'.ofile == w.ofile && w'.pipe == w.pipe
  {
    hide HeaderOf, ForceTo;
  }

  lemma TurnFile(o: Options, w: World, t: Tick, next: Option<string>)
    ensures Turn(o, w, t, next).o.Done? ==>
              Turn(o, w, t, next).w.ofile == if next.Some? then next.value else w.ofile
  {
    hide Collect, Open, WriteTo, HeaderOf, SysInit;
    CollectOthers(o, w, t, next.Some?);
    if next.Some? {
      var w2 := Turned(o, Collect(o, w, t, true), t, next.value);
      OpenOthers(o, w2, t.busyNew, t.time, t.ident);
      WriteToOthers(o, Open(o, w2, t.busyNew, t.time, t.ident).w, t.sample, t.busyNew);
    }
  }

  /** What the main loop needs of its rotations: a file at the start, and names. */
  predicate Rotatable(w: World, ticks: seq<Tick>, next: Option<string>, rotat: bool) {
    && (rotat || next.Some? ==> w.ofile != "")
    && (next.Some? ==> next.value != "")
    && forall i :: 0 <= i < |ticks| ==> ticks[i].today != ""
  }

  lemma RotatableOn(o: Options, w: World, ticks: seq<Tick>, next: Option<string>, rotat: bool)
    requires Rotatable(w, ticks, next, rotat) && ticks != [] && Turn(o, w, ticks[0], next).o.Done?
    ensures var w' := Turn(o, w, ticks[0], next).w;
            Rotatable(w', ticks[1..], Noticed(w'.ofile, ticks[0], rotat), rotat)
  {
    hide Turn;
    TurnFile(o, w, ticks[0], next);
  }

  lemma {:induction false} LoopKeeps(o: Options, w: World, ticks: seq<Tick>, next: Option<string>, rotat: bool)
    requires Sound(w) && Rotatable(w, ticks, next, rotat)
    ensures Startable(Loop(o, w, ticks, next, rotat).w)
    decreases |ticks|
  {
    hide Turn, Sound, Rotatable;
    if ticks != [] {
      Needed(w, ticks, next, rotat);
      TurnKeeps(o, w, ticks[0], next);
      var r := Turn(o, w, ticks[0], next);
      if r.o.Done? {
        RotatableOn(o, w, ticks, next, rotat);
        LoopKeeps(o, r.w, ticks[1..], Noticed(r.w.ofile, ticks[0], rotat), rotat);
      }
    } else {
      SoundStartable(w);
    }
  }

  lemma Needed(w: World, ticks: seq<Tick>, next: Option<string>, rotat: bool)
    requires Rotatable(w, ticks, next, rotat)
    ensures next.Some? ==> w.ofile != "" && next.value != ""
  {}

  lemma SoundStartable(w: World)
    requires Sound(w)
    ensures Startable(w)
  {}

  lemma ReadyKeeps(d: Disk, run: Run)
    requires Whole(d)
    ensures Startable(Opening(d, run).w)
    ensures Opening(d, run).o.Done? ==> Sound(Ready(d, run)) && Ready(d, run).ofile == run.ofile
  {
    hide Open, HeaderOf, SameBlocks;
    OpenKeeps(OptionsOf(run), AtStart(d, run), run.busyOpen, run.time, run.ident);
    OpenIff(OptionsOf(run), AtStart(d, run), run.busyOpen, run.time, run.ident);
  }

  /** A run leaves every file whole, however it ends. */
  lemma RunKeeps(d: Disk, run: Run)
    requires Whole(d) && ValidRun(run)
    ensures Whole(AfterRun(d, run).w.disk)
  {
    hide Opening, Ready, Loop, Appended, Stamp, Sound;
    ReadyKeeps(d, run);
    if Opening(d, run).o.Done? {
      var w := Ready(d, run);
      SoundStartable(w);
      if run.interval {
        LoopKeeps(OptionsOf(run), w, run.ticks, None, run.rotat);
      } else {
        AppendedKeeps(w, Record(Stamp(run.dummy, R_DUMMY), []));
        SoundStartable(Appended(w, Record(Stamp(run.dummy, R_DUMMY), [])));
      }
    }
  }

  lemma {:induction false} RunsKeep(d: Disk, runs: seq<Run>)
    requires Whole(d) && forall k :: 0 <= k < |runs| ==> ValidRun(runs[k])
    ensures Whole(AfterRuns(d, runs))
    decreases |runs|
  {
    hide AfterRun;
    if runs != [] {
      RunsKeep(d, runs[..|runs| - 1]);
      RunKeeps(AfterRuns(d, runs[..|runs| - 1]), runs[|runs| - 1]);
    }
  }

  // ---------- what a fresh start announces ----------

  /** The flags at the start: those asked for, without the processes if there is a file, and those of
      the serial lines and of the network interfaces if the machine has any. */
  lemma StartFlags(d: Disk, run: Run, i: nat)
    ensures Bit(AtStart(d, run).counts.actflag, i) <==>
            || (Bit(run.actflag, i) && (run.ofile != "" ==> Pow2(i) != A_PID))
            || (Pow2(i) == A_SERIAL && run.machine.serialNr != 0)
            || ((Pow2(i) == A_NET_DEV || Pow2(i) == A_NET_EDEV) && run.machine.ifaceNr != 0)
  {
    hide Pow2, SetFlag, Clear, Bit;
    Powers();
    ClearOne(run.actflag, 12, i);
    var c := if run.ofile == "" then run.actflag else Clear(run.actflag, A_PID);
    var serial := if run.machine.serialNr != 0 then SetFlag(c, A_SERIAL) else c;
    SetOne(c, 8, i);
    SetOne(serial, 9, i);
    SetOne(SetFlag(serial, A_NET_DEV), 10, i);
    if Pow2(i) == Pow2(12) { Pow2Injective(i, 12); }
    if Pow2(i) == Pow2(8) { Pow2Injective(i, 8); }
    if Pow2(i) == Pow2(9) { Pow2Injective(i, 9); }
    if Pow2(i) == Pow2(10) { Pow2Injective(i, 10); }
  }

  /** A header with the counts of the machine. */
  predicate Announces(h: Header, m: Machine, pidNr: uint32) {
    && h.proc == m.cpuNr && h.serial == m.serialNr && h.iface == m.ifaceNr
    && h.irqcpu == (if m.cpuNr > 0 then m.irqcpuNr else 0)
    && h.nrDisk == (if Has(h.actflag, A_DISK) then m.diskNr else 0)
    && h.nrPid == pidNr
  }

  /** A run that starts a file, or has none, announces the machine: in the file, if any, and on standard
      output. The flags are those of the start or, if it replaces the file of another machine, those
      of that file. */
  lemma FreshStart(d: Disk, run: Run)
    requires Opening(d, run).o.Done? && (run.ofile != "" ==> Creates(Find(d, run.ofile), run.machine.cpuNr))
    ensures var w := Ready(d, run);
            exists h ::
              && Announces(h, run.machine, if run.ofile == "" then run.pidNr else 0)
              && (run.ofile != "" ==> Find(w.disk, run.ofile) == Activity(h, []))
              && w.pipe == (if OptionsOf(run).toStdout then [Hdr(h)] else [])
              && h.actflag == (if run.ofile == "" || Find(d, run.ofile).Empty? || Find(d, run.ofile).Foreign?
                               then AtStart(d, run).counts.actflag else Find(d, run.ofile).hdr.actflag)
  {
    hide Has, SetFlag, Clear;
    var w := Ready(d, run);
    var h := HeaderOf(w.counts, run.time, run.ident);
    assert Announces(h, run.machine, if run.ofile == "" then run.pidNr else 0);
  }

  // ---------- which file is in use, and when it changes ----------

  /** The file in use before turn k: a day file is taken into use in the turn after the one that ends
      with it current. */
  function InUse(ticks: seq<Tick>, ofile: string, k: nat, rotat: bool): string
    requires k <= |ticks|
  {
    if rotat && k >= 2 then ticks[k - 2].today else ofile
  }

  /** The day file that turn k rotates to, if any: the one current before it, unless it is in use. */
  function NewDay(ticks: seq<Tick>, ofile: string, k: nat, rotat: bool): Option<string>
    requires k <= |ticks|
  {
    if rotat && k >= 1 && InUse(ticks, ofile, k, rotat) != ticks[k - 1].today then Some(ticks[k - 1].today) else None
  }

  lemma DayStep(ticks: seq<Tick>, ofile: string, k: nat, rotat: bool)
    requires k < |ticks|
    ensures var file, next := InUse(ticks, ofile, k, rotat), NewDay(ticks, ofile, k, rotat);
            var after := if next.Some? then next.value else file;
            && after == InUse(ticks, ofile, k + 1, rotat)
            && Noticed(after, ticks[k], rotat) == NewDay(ticks, ofile, k + 1, rotat)
  {}

  // ---------- when a run comes to its end ----------

  /** A rotation: the counts of the machine, the file found, whether its lock is held by another,
      and whether anything was sampled after it. */
  datatype Rotation = Rotation(c: Counts, found: FileView, busy: bool, followed: bool)

  function RotationOf(o: Options, w: World, t: Tick, next: string, followed: bool): Rotation {
    var disk := Collect(o, w, t, true).disk;
    Rotation(SysInit(w.counts, t.machine), if next == "" then Empty else Find(disk, next), t.busyNew, followed)
  }

  function Rotations(o: Options, w: World, ticks: seq<Tick>, next: Option<string>, rotat: bool): seq<Rotation>
    decreases |ticks|
  {
    if ticks == [] then []
    else
      var r := Turn(o, w, ticks[0], next);
      (if next.Some? then [RotationOf(o, w, ticks[0], next.value, r.o.Done? && |ticks| > 1)] else []) +
      if r.o.Done? then Rotations(o, r.w, ticks[1..], Noticed(r.w.ofile, ticks[0], rotat), rotat) else []
  }

  lemma TurnDone(o: Options, w: World, t: Tick, next: Option<string>)
    requires Sound(w) && (next.Some? ==> w.ofile != "" && next.value != "")
    ensures Turn(o, w, t, next).o.Done? <==>
            next.None? || var r := RotationOf(o, w, t, next.value, false); Opens(o, r.found, r.busy, r.c.cpuNr)
  {
    hide Open, Opens, Collect, HeaderOf, SysInit, FitsFile;
    if next.Some? {
      CollectKeeps(o, w, t, true);
      CollectOthers(o, w, t, true);
      OpenIff(o, Turned(o, Collect(o, w, t, true), t, next.value), t.busyNew, t.time, t.ident);
    }
  }

  predicate AllOpen(o: Options, rotations: seq<Rotation>) {
    forall r :: r in rotations ==> Opens(o, r.found, r.busy, r.c.cpuNr)
  }

  /** The loop goes through all its turns exactly if every day file it comes to can be opened. */
  lemma {:induction false} LoopDone(o: Options, w: World, ticks: seq<Tick>, next: Option<string>, rotat: bool)
    requires Sound(w) && Rotatable(w, ticks, next, rotat)
    ensures Loop(o, w, ticks, next, rotat).o.Done? <==> AllOpen(o, Rotations(o, w, ticks, next, rotat))
    decreases |ticks|
  {
    hide Turn, Sound, Rotatable, RotationOf, Opens;
    if ticks != [] {
      Needed(w, ticks, next, rotat);
      TurnKeeps(o, w, ticks[0], next);
      TurnDone(o, w, ticks[0], next);
      var r := Turn(o, w, ticks[0], next);
      RotationFields(o, w, ticks[0], if next.Some? then next.value else "", r.o.Done? && |ticks| > 1);
      if r.o.Done? {
        RotatableOn(o, w, ticks, next, rotat);
        LoopDone(o, r.w, ticks[1..], Noticed(r.w.ofile, ticks[0], rotat), rotat);
      }
    }
  }

  lemma RotationFields(o: Options, w: World, t: Tick, next: string, followed: bool)
    ensures RotationOf(o, w, t, next, followed) == RotationOf(o, w, t, next, false).(followed := followed)
  {}
}
