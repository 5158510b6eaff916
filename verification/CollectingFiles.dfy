/** What the runs of sadc leave in the files: every sample once, in order, in the file due for it, and
    nothing lost. */
module CollectingFiles {
  import opened Bytes
  import opened Framing
  import opened SaFormat
  import opened SaFlags
  import opened SaCounts
  import opened SaBlocks
  import opened SarPipe
  import opened Collecting

  // ---------- what is due in each file ----------

  /** What a file must hold, given what it held at first and what was done since. */
  function Past(first: FileView, log: seq<Event>, name: string): FileView
    decreases |log|
  {
    if log == [] then first
    else
      var e, before := log[|log| - 1], Past(first, log[..|log| - 1], name);
      if e.name != name then before
      else
        match e
        case Created(_, h) => Activity(h, [])
        case Wrote(_, h, r) => if before.Activity? && before.hdr == h then Activity(h, before.recs + [r]) else before
  }

  lemma PastStep(first: FileView, log: seq<Event>, e: Event, name: string)
    ensures e.name != name ==> Past(first, log + [e], name) == Past(first, log, name)
    ensures e.name == name && e.Created? ==> Past(first, log + [e], name) == Activity(e.h, [])
    ensures e.name == name && e.Wrote? && Past(first, log, name).Activity? && Past(first, log, name).hdr == e.h ==>
              var v := Past(first, log, name);
              Past(first, log + [e], name) == Activity(v.hdr, v.recs + [e.r])
  {
    assert (log + [e])[..|log|] == log;
  }

  /** The files are what the log says. */
  ghost predicate Logged(d: Disk, w: World) {
    forall name: string :: Find(w.disk, name) == Past(Find(d, name), w.log, name)
  }

  lemma CreateLogged(d: Disk, o: Options, w: World, busy: bool, time: Time, ident: Ident)
    requires Logged(d, w)
    ensures Logged(d, Create(o, w, busy, time, ident).w)
  {
    hide Past, HeaderOf;
    if !(o.useL && busy) {
      var w' := Create(o, w, busy, time, ident).w;
      forall name: string ensures Find(w'.disk, name) == Past(Find(d, name), w'.log, name) {
        PastStep(Find(d, name), w.log, Created(w.ofile, HeaderOf(w.counts, time, ident)), name);
        assert Find(w.disk, name) == Past(Find(d, name), w.log, name);
      }
    }
  }

  lemma AppendedLogged(d: Disk, w: World, r: Record)
    requires Logged(d, w)
    ensures Logged(d, Appended(w, r))
  {
    hide Past;
    if Find(w.disk, w.ofile).Activity? {
      var w' := Appended(w, r);
      forall name: string ensures Find(w'.disk, name) == Past(Find(d, name), w'.log, name) {
        PastStep(Find(d, name), w.log, Wrote(w.ofile, Find(w.disk, w.ofile).hdr, r), name);
        assert Find(w.disk, name) == Past(Find(d, name), w.log, name);
      }
    }
  }

  lemma OpenLogged(d: Disk, o: Options, w: World, busy: bool, time: Time, ident: Ident)
    requires Logged(d, w)
    ensures Logged(d, Open(o, w, busy, time, ident).w)
  {
    hide Create, Past, ForceTo;
    CreateLogged(d, o, w, busy, time, ident);
    var v := Find(w.disk, w.ofile);
    if v.Activity? || v.Damaged? {
      CreateLogged(d, o, w.(counts := w.counts.(actflag := v.hdr.actflag)), busy, time, ident);
    }
  }

  lemma TurnLogged(d: Disk, o: Options, w: World, t: Tick, next: Option<string>)
    requires Logged(d, w)
    ensures Logged(d, Turn(o, w, t, next).w)
  {
    hide Past, Open, Appended, RecordOf, HeaderOf, SysInit;
    var sent := Send(o, w, Rec(RecordOf(w.counts, t.sample, if next.Some? then R_LAST_STATS else R_STATS)));
    AppendedLogged(d, sent, RecordOf(sent.counts, t.sample, R_STATS));
    if next.Some? {
      var w2 := Turned(o, Collect(o, w, t, true), t, next.value);
      OpenLogged(d, o, w2, t.busyNew, t.time, t.ident);
      var r := Open(o, w2, t.busyNew, t.time, t.ident);
      AppendedLogged(d, r.w, RecordOf(r.w.counts, t.sample, R_STATS));
    }
  }

  lemma {:induction false} LoopLogged(d: Disk, o: Options, w: World, ticks: seq<Tick>, next: Option<string>,
                                      rotat: bool)
    requires Logged(d, w)
    ensures Logged(d, Loop(o, w, ticks, next, rotat).w)
    decreases |ticks|
  {
    hide Logged, Turn;
    if ticks != [] {
      TurnLogged(d, o, w, ticks[0], next);
      var r := Turn(o, w, ticks[0], next);
      if r.o.Done? { LoopLogged(d, o, r.w, ticks[1..], Noticed(r.w.ofile, ticks[0], rotat), rotat); }
    }
  }

  /** What is owed to a file: a sample, or a restart mark of that time. */
  datatype Write = OfSample(name: string, s: Sample) | OfMark(name: string, time: seq<byte>)

  /** A record pays for a sample if it has its file_stats and, in the blocks that the header of its
      file tells of, each array of the sample in its own place. */
  predicate Pays(e: Event, due: Write) {
    && e.Wrote? && e.name == due.name
    && match due
       case OfSample(_, s) => e.r.stats == Stamp(s.stats, R_STATS) && Carries(CountsIn(e.h, 0), e.r.extra, s)
       case OfMark(_, time) => e.r == Record(Stamp(time, R_DUMMY), [])
  }

  /** One record after the other, each for what is due in its turn. */
  predicate AllPay(es: seq<Event>, due: seq<Write>) {
    |es| == |due| && forall i :: 0 <= i < |es| ==> Pays(es[i], due[i])
  }

  function WriteIn(e: Event): seq<Event> {
    if e.Wrote? then [e] else []
  }

  function Writes(log: seq<Event>): seq<Event> {
    if log == [] then [] else Writes(log[..|log| - 1]) + WriteIn(log[|log| - 1])
  }

  /** What was written between two states of the log pays for all that was due. */
  predicate Paid(before: seq<Event>, after: seq<Event>, due: seq<Write>) {
    Writes(before) <= Writes(after) && AllPay(Writes(after)[|Writes(before)|..], due)
  }

  /** It pays for a first part of that. */
  ghost predicate PaidPart(before: seq<Event>, after: seq<Event>, due: seq<Write>) {
    exists n: nat :: n <= |due| && Paid(before, after, due[..n])
  }

  /** One of the records written pays for it. */
  predicate InLog(log: seq<Event>, due: Write) {
    exists i :: 0 <= i < |Writes(log)| && Pays(Writes(log)[i], due)
  }

  lemma PaidHas(log: seq<Event>, due: seq<Write>, x: Write)
    requires Paid([], log, due) && x in due
    ensures InLog(log, x)
  {
    hide Pays;
    assert Writes(log)[0..] == Writes(log);
    var i :| 0 <= i < |due| && due[i] == x;
    assert Pays(Writes(log)[i], x);
  }

  lemma PaidNothing(log: seq<Event>)
    ensures Paid(log, log, [])
  {}

  lemma PaidOn(a: seq<Event>, b: seq<Event>, c: seq<Event>, x: seq<Write>, y: seq<Write>)
    requires Paid(a, b, x) && Paid(b, c, y)
    ensures Paid(a, c, x + y)
  {
    hide Writes, Pays;
    var n, m, l := |Writes(a)|, |Writes(b)|, Writes(c);
    assert l[n..] == Writes(b)[n..] + l[m..];
  }

  lemma PartOn(a: seq<Event>, b: seq<Event>, c: seq<Event>, x: seq<Write>, y: seq<Write>)
    requires Paid(a, b, x) && PaidPart(b, c, y)
    ensures PaidPart(a, c, x + y)
  {
    hide Paid;
    var n: nat :| n <= |y| && Paid(b, c, y[..n]);
    PaidOn(a, b, c, x, y[..n]);
    assert (x + y)[..|x| + n] == x + y[..n];
  }

  lemma PartOf(a: seq<Event>, b: seq<Event>, x: seq<Write>, due: seq<Write>)
    requires Paid(a, b, x) && x <= due
    ensures PaidPart(a, b, due)
  {
    hide Paid;
    assert due[..|x|] == x;
  }

  /** Where the sample of one turn belongs: in the current file and, if a new day was noticed,
      in the file of that day as well. */
  function Targets(t: Tick, ofile: string, next: Option<string>, useL: bool, locked: bool): seq<Write> {
    (if ofile != "" && (locked || !useL || !t.busy) then [OfSample(ofile, t.sample)] else []) +
    (if next.Some? && (Held(t, ofile, None, useL, locked) || !useL || !t.busyNew)
     then [OfSample(next.value, t.sample)] else [])
  }

  /** Whether the collector believes it holds the lock after that turn. */
  predicate Held(t: Tick, ofile: string, next: Option<string>, useL: bool, locked: bool) {
    locked || (useL && ((ofile != "" && !t.busy) || (next.Some? && !t.busyNew)))
  }

  /** What the loop owes to the files. */
  function Due(ticks: seq<Tick>, ofile: string, next: Option<string>, rotat: bool, useL: bool, locked: bool): seq<Write>
    decreases |ticks|
  {
    if ticks == [] then []
    else
      var t := ticks[0];
      var file := if next.Some? then next.value else ofile;
      Targets(t, ofile, next, useL, locked) +
      Due(ticks[1..], file, Noticed(file, t, rotat), rotat, useL, Held(t, ofile, next, useL, locked))
  }

  lemma WritesAppend(log: seq<Event>, e: Event)
    ensures Writes(log + [e]) == Writes(log) + WriteIn(e)
  {
    assert (log + [e])[..|log|] == log;
  }

  lemma WriteToWrites(o: Options, w: World, s: Sample, busy: bool)
    requires w.ofile != "" && FitsFile(w)
    ensures var w' := WriteTo(o, w, s, busy);
            && Paid(w.log, w'.log, if w.locked || !o.useL || !busy then [OfSample(w.ofile, s)] else [])
            && w'.locked == (w.locked || (o.useL && !busy)) && w'.ofile == w.ofile && w'.counts == w.counts
  {
    hide RecordOf, Stamp, Writes, Carries, SameBlocks;
    var h, r := Find(w.disk, w.ofile).hdr, RecordOf(w.counts, s, R_STATS);
    WritesAppend(w.log, Wrote(w.ofile, h, r));
    RecordCarries(w.counts, s, R_STATS);
    SameCarries(w.counts, CountsIn(h, 0), r.extra, s);
    assert (Writes(w.log) + [Wrote(w.ofile, h, r)])[|Writes(w.log)|..] == [Wrote(w.ofile, h, r)];
  }

  lemma OpenWrites(o: Options, w: World, busy: bool, time: Time, ident: Ident)
    ensures Writes(Open(o, w, busy, time, ident).w.log) == Writes(w.log)
  {
    hide HeaderOf, Writes, ForceTo;
    WritesAppend(w.log, Created(w.ofile, HeaderOf(w.counts, time, ident)));
    var v := Find(w.disk, w.ofile);
    if v.Activity? || v.Damaged? {
      WritesAppend(w.log, Created(w.ofile, HeaderOf(w.counts.(actflag := v.hdr.actflag), time, ident)));
    }
    assert Writes(w.log) + [] == Writes(w.log);
  }

  lemma CollectWrites(o: Options, w: World, t: Tick, last: bool)
    requires Sound(w)
    ensures var w' := Collect(o, w, t, last);
            && Paid(w.log, w'.log, Targets(t, w.ofile, None, o.useL, w.locked))
            && w'.locked == Held(t, w.ofile, None, o.useL, w.locked)
  {
    hide RecordOf, Stamp, WriteTo, SameBlocks, Paid;
    PaidNothing(w.log);
    var sent := Send(o, w, Rec(RecordOf(w.counts, t.sample, if last then R_LAST_STATS else R_STATS)));
    assert Targets(t, w.ofile, None, o.useL, w.locked) ==
           if w.ofile != "" && (w.locked || !o.useL || !t.busy) then [OfSample(w.ofile, t.sample)] else [];
    if w.ofile != "" { WriteToWrites(o, sent, t.sample, t.busy); }
  }

  /** A turn writes its sample to the files it belongs to: to the first one only if the day file
      cannot be opened. */
  lemma TurnWrites(o: Options, w: World, t: Tick, next: Option<string>)
    requires Sound(w) && (next.Some? ==> w.ofile != "" && next.value != "")
    ensures var r := Turn(o, w, t, next);
            && Paid(w.log, r.w.log, Targets(t, w.ofile, if r.o.Done? then next else None, o.useL, w.locked))
            && (r.o.Done? ==> r.w.locked == Held(t, w.ofile, next, o.useL, w.locked))
  {
    hide RecordOf, HeaderOf, Stamp, Writes, WriteTo, Collect, Open, SameBlocks, SetFlag, Creates, Opens, AllPay;
    CollectWrites(o, w, t, next.Some?);
    CollectKeeps(o, w, t, next.Some?);
    CollectOthers(o, w, t, next.Some?);
    if next.Some? {
      var w2 := Turned(o, Collect(o, w, t, true), t, next.value);
      OpenWrites(o, w2, t.busyNew, t.time, t.ident);
      OpenKeeps(o, w2, t.busyNew, t.time, t.ident);
      OpenIff(o, w2, t.busyNew, t.time, t.ident);
      CreatedFree(o, Find(w2.disk, w2.ofile), t.busyNew, w2.counts.cpuNr);
      var r := Open(o, w2, t.busyNew, t.time, t.ident);
      if r.o.Done? {
        WriteToWrites(o, r.w, t.sample, t.busyNew);
        var first := Targets(t, w.ofile, None, o.useL, w.locked);
        var more := if r.w.locked || !o.useL || !t.busyNew then [OfSample(next.value, t.sample)] else [];
        PaidOn(w.log, r.w.log, WriteTo(o, r.w, t.sample, t.busyNew).log, first, more);
        assert Targets(t, w.ofile, next, o.useL, w.locked) == first + more;
      }
    }
  }

  lemma CreatedFree(o: Options, v: FileView, busy: bool, cpuNr: uint32)
    ensures Opens(o, v, busy, cpuNr) && Creates(v, cpuNr) ==> !(o.useL && busy)
  {}

  /** Every sample is written to the file that is due for it, once and in order, unless the lock is
      refused; nothing else is written, also if the loop is cut short. */
  lemma {:induction false} LoopWrites(o: Options, w: World, ticks: seq<Tick>, next: Option<string>, rotat: bool)
   
    requires Sound(w) && Rotatable(w, ticks, next, rotat)
    ensures var r, due := Loop(o, w, ticks, next, rotat), Due(ticks, w.ofile, next, rotat, o.useL, w.locked);
            && PaidPart(w.log, r.w.log, due)
            && (r.o.Done? ==> Paid(w.log, r.w.log, due))
    decreases |ticks|
  {
    hide Turn, Sound, Rotatable, Targets, Held, Paid, PaidPart;
    PaidNothing(w.log);
    PartOf(w.log, w.log, [], Due(ticks, w.ofile, next, rotat, o.useL, w.locked));
    if ticks != [] {
      var t, r := ticks[0], Turn(o, w, ticks[0], next);
      Needed(w, ticks, next, rotat);
      TurnKeeps(o, w, t, next);
      TurnWrites(o, w, t, next);
      TurnFile(o, w, t, next);
      var now := Targets(t, w.ofile, next, o.useL, w.locked);
      FewerTargets(t, w.ofile, next, o.useL, w.locked);
      if r.o.Done? {
        var n := Noticed(r.w.ofile, t, rotat);
        RotatableOn(o, w, ticks, next, rotat);
        LoopWrites(o, r.w, ticks[1..], n, rotat);
        var later, end := Due(ticks[1..], r.w.ofile, n, rotat, o.useL, r.w.locked), Loop(o, w, ticks, next, rotat);
        PartOn(w.log, r.w.log, end.w.log, now, later);
        if end.o.Done? { PaidOn(w.log, r.w.log, end.w.log, now, later); }
      } else {
        PartOf(w.log, r.w.log, Targets(t, w.ofile, None, o.useL, w.locked),
               Due(ticks, w.ofile, next, rotat, o.useL, w.locked));
      }
    }
  }

  lemma FewerTargets(t: Tick, ofile: string, next: Option<string>, useL: bool, locked: bool)
    ensures Targets(t, ofile, None, useL, locked) <= Targets(t, ofile, next, useL, locked)
  {}

  // ---------- the same, turn by turn ----------

  /** Whether turn j gets the lock. */
  predicate GetsLock(ticks: seq<Tick>, ofile: string, j: nat, rotat: bool)
    requires j < |ticks|
  {
    || (InUse(ticks, ofile, j, rotat) != "" && !ticks[j].busy)
    || (NewDay(ticks, ofile, j, rotat).Some? && !ticks[j].busyNew)
  }

  /** The lock is kept from the first turn that gets it. */
  predicate HeldAt(ticks: seq<Tick>, ofile: string, k: nat, rotat: bool, useL: bool, locked: bool)
    requires k <= |ticks|
  {
    locked || (useL && exists j :: 0 <= j < k && GetsLock(ticks, ofile, j, rotat))
  }

  /** What is due of turn k: its sample, to the file in use and to the file of a new day, unless the
      lock is refused. */
  function DueAt(ticks: seq<Tick>, ofile: string, k: nat, rotat: bool, useL: bool, locked: bool): seq<Write>
    requires k < |ticks|
  {
    var t, file, day := ticks[k], InUse(ticks, ofile, k, rotat), NewDay(ticks, ofile, k, rotat);
    var free := !useL || HeldAt(ticks, ofile, k, rotat, useL, locked);
    var got := free || (file != "" && !t.busy);
    (if file != "" && got then [OfSample(file, t.sample)] else []) +
    (if day.Some? && (got || !t.busyNew) then [OfSample(day.value, t.sample)] else [])
  }

  /** What is due of all turns from k on. */
  function Plan(ticks: seq<Tick>, ofile: string, k: nat, rotat: bool, useL: bool, locked: bool): seq<Write>
    requires k <= |ticks|
    decreases |ticks| - k
  {
    if k == |ticks| then []
    else DueAt(ticks, ofile, k, rotat, useL, locked) + Plan(ticks, ofile, k + 1, rotat, useL, locked)
  }

  lemma {:induction false} DueIsPlan(ticks: seq<Tick>, ofile: string, k: nat, rotat: bool, useL: bool, locked: bool)
    requires k <= |ticks|
    ensures Due(ticks[k..], InUse(ticks, ofile, k, rotat), NewDay(ticks, ofile, k, rotat), rotat, useL,
                HeldAt(ticks, ofile, k, rotat, useL, locked)) ==
            Plan(ticks, ofile, k, rotat, useL, locked)
    decreases |ticks| - k
  {
    hide InUse, NewDay, Noticed;
    if k < |ticks| {
      DueIsPlan(ticks, ofile, k + 1, rotat, useL, locked);
      DayStep(ticks, ofile, k, rotat);
      assert ticks[k..][0] == ticks[k] && ticks[k..][1..] == ticks[k + 1..];
      HeldStep(ticks, ofile, k, rotat, useL, locked);
    }
  }

  lemma HeldStep(ticks: seq<Tick>, ofile: string, k: nat, rotat: bool, useL: bool, locked: bool)
    requires k < |ticks|
    ensures HeldAt(ticks, ofile, k + 1, rotat, useL, locked) ==
            Held(ticks[k], InUse(ticks, ofile, k, rotat), NewDay(ticks, ofile, k, rotat), useL,
                 HeldAt(ticks, ofile, k, rotat, useL, locked))
  {
    hide InUse, NewDay;
    assert GetsLock(ticks, ofile, k, rotat) ==> useL ==> HeldAt(ticks, ofile, k + 1, rotat, useL, locked);
  }

  /** Where no lock is refused: without rotation every sample goes to the one file. With it each sample
      but the first goes to the day file current before its turn, and is written to a second file
      exactly if another file was in use. */
  lemma DueFree(ticks: seq<Tick>, ofile: string, k: nat, rotat: bool, useL: bool, locked: bool)
    requires k < |ticks| && ofile != "" && forall i :: 0 <= i < |ticks| ==> ticks[i].today != ""
    requires !useL || locked || !ticks[k].busy
    ensures var due, s := DueAt(ticks, ofile, k, rotat, useL, locked), ticks[k].sample;
            if rotat && k > 0 then
              var before, day := if k == 1 then ofile else ticks[k - 2].today, ticks[k - 1].today;
              due == if before == day then [OfSample(day, s)] else [OfSample(before, s), OfSample(day, s)]
            else due == [OfSample(ofile, s)]
  {}

  // ---------- one run ----------

  /** What a run owes to the files: the samples of its turns, or one restart mark without an interval.
      Creating a file takes the lock, for good. */
  function RunDue(d: Disk, run: Run): seq<Write> {
    var useL := OptionsOf(run).useL;
    if run.interval then
      Plan(run.ticks, run.ofile, 0, run.rotat, useL, useL && Creates(Find(d, run.ofile), run.machine.cpuNr))
    else if run.ofile != "" then [OfMark(run.ofile, run.dummy)]
    else []
  }

  /** A run writes what is due and nothing else, all of it if it is not cut short, and the files
      hold what they held before and what the run did. */
  lemma RunRecords(d: Disk, run: Run)
    requires Whole(d) && ValidRun(run)
    ensures var r := AfterRun(d, run);
            && Logged(d, r.w)
            && PaidPart([], r.w.log, RunDue(d, run))
            && (r.o.Done? ==> Paid([], r.w.log, RunDue(d, run)))
  {
    hide Open, Loop, Due, Plan, Stamp, Paid, PaidPart, Past, HeaderOf, SysInit, SameBlocks, Clear, Appended, Creates;
    var o, w0 := OptionsOf(run), AtStart(d, run);
    NothingLogged(d, w0);
    OpenLogged(d, o, w0, run.busyOpen, run.time, run.ident);
    OpenPays(o, w0, run.busyOpen, run.time, run.ident);
    OpenIff(o, w0, run.busyOpen, run.time, run.ident);
    StartCpus(d, run);
    ReadyKeeps(d, run);
    var log := Opening(d, run).w.log;
    PartOf([], log, [], RunDue(d, run));
    if Opening(d, run).o.Done? {
      var w := Ready(d, run);
      if run.interval {
        LoopLogged(d, o, w, run.ticks, None, run.rotat);
        LoopWrites(o, w, run.ticks, None, run.rotat);
        RunPlan(d, run, w);
        var due, end := RunDue(d, run), Loop(o, w, run.ticks, None, run.rotat);
        assert [] + due == due;
        PartOn([], log, end.w.log, [], due);
        if end.o.Done? { PaidOn([], log, end.w.log, [], due); }
      } else if run.ofile != "" {
        AppendedLogged(d, w, Record(Stamp(run.dummy, R_DUMMY), []));
        MarkPays(w, run.dummy);
        var end := Appended(w, Record(Stamp(run.dummy, R_DUMMY), [])).log;
        assert [] + [OfMark(run.ofile, run.dummy)] == RunDue(d, run);
        PaidOn([], log, end, [], [OfMark(run.ofile, run.dummy)]);
        PartOf([], end, RunDue(d, run), RunDue(d, run));
      }
    }
  }

  /** A run without an interval comes to its end exactly if there is a file, it can be opened and the
      lock is not refused: creating the file has taken it already. It then adds one restart mark to
      what was in the file or to the new one. */
  lemma MarkRun(d: Disk, run: Run)
    requires Whole(d) && !run.interval
    ensures var r, v := AfterRun(d, run), Find(d, run.ofile);
            var creates := Creates(v, run.machine.cpuNr);
            && (r.o.Done? <==>
                  && run.ofile != ""
                  && Opens(Options(run.useF, run.useL, run.optz), v, run.busyOpen, run.machine.cpuNr)
                  && (run.useL && run.busyDummy ==> creates))
            && (!r.o.Done? ==> r.o.code == if run.ofile == "" then 2 else if v.Foreign? && !run.useF then 3 else 1)
            && (r.o.Done? ==>
                  var v' := Find(r.w.disk, run.ofile);
                  && v'.Activity?
                  && v'.recs == (if creates then [] else v.recs) + [Record(Stamp(run.dummy, R_DUMMY), [])])
  {
    hide Stamp, HeaderOf, SysInit, SameBlocks, Clear, Creates, Open;
    var o, w0 := OptionsOf(run), AtStart(d, run);
    OpenIff(o, w0, run.busyOpen, run.time, run.ident);
    if run.ofile != "" { OpenFinds(o, w0, run.busyOpen, run.time, run.ident); }
    StartCpus(d, run);
    ReadyKeeps(d, run);
  }

  /** What is in a file just opened. */
  lemma OpenFinds(o: Options, w: World, busy: bool, time: Time, ident: Ident)
    requires w.ofile != "" && Whole(w.disk)
    ensures var r, v := Open(o, w, busy, time, ident), Find(w.disk, w.ofile);
            r.o.Done? ==>
              var v' := Find(r.w.disk, w.ofile);
              v'.Activity? && v'.recs == if Creates(v, w.counts.cpuNr) then [] else v.recs
  {
    hide HeaderOf, ForceTo;
  }

  /** A sample is in the file of its day, whatever else is: it is written there with all its arrays,
      in a run that is not cut short, unless the lock was refused. */
  lemma SampleWritten(d: Disk, run: Run, k: nat)
    requires Whole(d) && ValidRun(run) && AfterRun(d, run).o.Done?
    requires run.interval && run.ofile != "" && k < |run.ticks| && !(run.useL && run.ticks[k].busy)
    ensures var file := if run.rotat && k > 0 then run.ticks[k - 1].today else run.ofile;
            InLog(AfterRun(d, run).w.log, OfSample(file, run.ticks[k].sample))
  {
    hide AfterRun, DueAt, Plan, Paid, InLog;
    RunRecords(d, run);
    var useL := OptionsOf(run).useL;
    var locked := useL && Creates(Find(d, run.ofile), run.machine.cpuNr);
    DueFree(run.ticks, run.ofile, k, run.rotat, useL, locked);
    var due := DueAt(run.ticks, run.ofile, k, run.rotat, useL, locked);
    PlanHas(run.ticks, run.ofile, 0, k, run.rotat, useL, locked);
    var file := if run.rotat && k > 0 then run.ticks[k - 1].today else run.ofile;
    assert due[|due| - 1] == OfSample(file, run.ticks[k].sample);
    PaidHas(AfterRun(d, run).w.log, RunDue(d, run), due[|due| - 1]);
  }

  lemma {:induction false} PlanHas(ticks: seq<Tick>, ofile: string, k: nat, j: nat, rotat: bool, useL: bool,
                                   locked: bool)
    requires k <= j < |ticks|
    ensures forall x :: x in DueAt(ticks, ofile, j, rotat, useL, locked) ==>
              x in Plan(ticks, ofile, k, rotat, useL, locked)
    decreases j - k
  {
    hide DueAt;
    if k < j { PlanHas(ticks, ofile, k + 1, j, rotat, useL, locked); }
  }

  lemma RunPlan(d: Disk, run: Run, w: World)
    requires run.interval && w.ofile == run.ofile
    requires w.locked == (OptionsOf(run).useL && Creates(Find(d, run.ofile), run.machine.cpuNr))
    ensures Due(run.ticks, w.ofile, None, run.rotat, OptionsOf(run).useL, w.locked) == RunDue(d, run)
  {
    hide Creates, Due, Plan;
    var useL := OptionsOf(run).useL;
    var locked := useL && Creates(Find(d, run.ofile), run.machine.cpuNr);
    DueIsPlan(run.ticks, run.ofile, 0, run.rotat, useL, locked);
    assert run.ticks[0..] == run.ticks;
  }

  lemma StartCpus(d: Disk, run: Run)
    ensures AtStart(d, run).counts.cpuNr == run.machine.cpuNr
  {}

  lemma NothingLogged(d: Disk, w: World)
    requires w.disk == d && w.log == []
    ensures Logged(d, w)
  {}

  lemma OpenPays(o: Options, w: World, busy: bool, time: Time, ident: Ident)
    ensures Paid(w.log, Open(o, w, busy, time, ident).w.log, [])
  {
    hide Open, Writes;
    OpenWrites(o, w, busy, time, ident);
  }

  lemma MarkPays(w: World, time: seq<byte>)
    requires FitsFile(w)
    ensures Paid(w.log, Appended(w, Record(Stamp(time, R_DUMMY), [])).log, [OfMark(w.ofile, time)])
  {
    hide Writes, Stamp;
    var e := Wrote(w.ofile, Find(w.disk, w.ofile).hdr, Record(Stamp(time, R_DUMMY), []));
    WritesAppend(w.log, e);
    assert (Writes(w.log) + [e])[|Writes(w.log)|..] == [e];
  }

  // ---------- any number of runs ----------

  lemma {:induction false} PastAppend(first: FileView, a: seq<Event>, b: seq<Event>, name: string)
    ensures Past(first, a + b, name) == Past(Past(first, a, name), b, name)
    decreases |b|
  {
    if b == [] {
      assert a + b == a;
    } else {
      var n := |b| - 1;
      assert (a + b)[..|a + b| - 1] == a + b[..n];
      PastAppend(first, a, b[..n], name);
    }
  }

  lemma {:induction false} WritesConcat(a: seq<Event>, b: seq<Event>)
    ensures Writes(a + b) == Writes(a) + Writes(b)
    decreases |b|
  {
    if b == [] {
      assert a + b == a;
    } else {
      var n := |b| - 1;
      assert (a + b)[..|a + b| - 1] == a + b[..n];
      WritesConcat(a, b[..n]);
    }
  }

  /** Everything the runs do to the files, and everything they owe. */
  function RunsLog(d: Disk, runs: seq<Run>): seq<Event> {
    if runs == [] then []
    else
      var n := |runs| - 1;
      RunsLog(d, runs[..n]) + AfterRun(AfterRuns(d, runs[..n]), runs[n]).w.log
  }

  function RunsDue(d: Disk, runs: seq<Run>): seq<Write> {
    if runs == [] then []
    else
      var n := |runs| - 1;
      RunsDue(d, runs[..n]) + RunDue(AfterRuns(d, runs[..n]), runs[n])
  }

  predicate AllDone(d: Disk, runs: seq<Run>) {
    runs == [] ||
    (AllDone(d, runs[..|runs| - 1]) && AfterRun(AfterRuns(d, runs[..|runs| - 1]), runs[|runs| - 1]).o.Done?)
  }

  /** For any number of runs: each file holds what it held at first and what was done to it since,
      and if no run is cut short that is what was due, run after run, and nothing else. */
  lemma {:induction false} RunsRecord(d: Disk, runs: seq<Run>, name: string)
    requires Whole(d) && forall k :: 0 <= k < |runs| ==> ValidRun(runs[k])
    ensures Find(AfterRuns(d, runs), name) == Past(Find(d, name), RunsLog(d, runs), name)
    ensures AllDone(d, runs) ==> AllPay(Writes(RunsLog(d, runs)), RunsDue(d, runs))
    decreases |runs|
  {
    hide AfterRun, Past, Writes, RunDue, Logged, Pays;
    NothingDone(Find(d, name), name);
    if runs != [] {
      var n := |runs| - 1;
      var before, last := AfterRuns(d, runs[..n]), runs[n];
      RunsRecord(d, runs[..n], name);
      RunsKeep(d, runs[..n]);
      RunRecords(before, last);
      FromLog(before, AfterRun(before, last).w, name);
      PastAppend(Find(d, name), RunsLog(d, runs[..n]), AfterRun(before, last).w.log, name);
      WritesConcat(RunsLog(d, runs[..n]), AfterRun(before, last).w.log);
    }
  }

  lemma NothingDone(first: FileView, name: string)
    ensures Past(first, [], name) == first && Writes([]) == []
  {}

  lemma FromLog(d: Disk, w: World, name: string)
    requires Logged(d, w)
    ensures Find(w.disk, name) == Past(Find(d, name), w.log, name)
  {}

  // ---------- nothing is lost ----------

  /** The same file with more records. */
  predicate Extends(v: FileView, v': FileView) {
    v.Activity? ==> v'.Activity? && v'.hdr == v.hdr && v.recs <= v'.recs
  }

  ghost predicate AllExtend(d: Disk, d': Disk) {
    forall name: string :: Extends(Find(d, name), Find(d', name))
  }

  lemma OpenLoses(o: Options, w: World, busy: bool, time: Time, ident: Ident)
    requires !o.useF
    ensures AllExtend(w.disk, Open(o, w, busy, time, ident).w.disk)
  {
    hide HeaderOf, ForceTo;
  }

  lemma WriteToLoses(o: Options, w: World, s: Sample, busy: bool)
    ensures AllExtend(w.disk, WriteTo(o, w, s, busy).disk)
  {
    hide RecordOf;
  }

  lemma ExtendTrans(a: Disk, b: Disk, c: Disk)
    requires AllExtend(a, b) && AllExtend(b, c)
    ensures AllExtend(a, c)
  {
    forall name: string ensures Extends(Find(a, name), Find(c, name)) {
      assert Extends(Find(a, name), Find(b, name)) && Extends(Find(b, name), Find(c, name));
    }
  }

  lemma TurnLoses(o: Options, w: World, t: Tick, next: Option<string>)
    requires !o.useF
    ensures AllExtend(w.disk, Turn(o, w, t, next).w.disk)
  {
    hide RecordOf, HeaderOf, WriteTo, Open, AllExtend, SysInit;
    var sent := Send(o, w, Rec(RecordOf(w.counts, t.sample, if next.Some? then R_LAST_STATS else R_STATS)));
    WriteToLoses(o, sent, t.sample, t.busy);
    ExtendSelf(w.disk);
    if next.Some? {
      var w1 := Collect(o, w, t, true);
      var w2 := Turned(o, w1, t, next.value);
      OpenLoses(o, w2, t.busyNew, t.time, t.ident);
      var r := Open(o, w2, t.busyNew, t.time, t.ident);
      WriteToLoses(o, r.w, t.sample, t.busyNew);
      ExtendTrans(w.disk, w1.disk, r.w.disk);
      ExtendTrans(w.disk, r.w.disk, WriteTo(o, r.w, t.sample, t.busyNew).disk);
    }
  }

  lemma ExtendSelf(d: Disk)
    ensures AllExtend(d, d)
  {}

  lemma {:induction false} LoopLoses(o: Options, w: World, ticks: seq<Tick>, next: Option<string>, rotat: bool)
    requires !o.useF
    ensures AllExtend(w.disk, Loop(o, w, ticks, next, rotat).w.disk)
    decreases |ticks|
  {
    hide AllExtend, Turn;
    ExtendSelf(w.disk);
    if ticks != [] {
      var r := Turn(o, w, ticks[0], next);
      TurnLoses(o, w, ticks[0], next);
      if r.o.Done? {
        LoopLoses(o, r.w, ticks[1..], Noticed(r.w.ofile, ticks[0], rotat), rotat);
        ExtendTrans(w.disk, r.w.disk, Loop(o, w, ticks, next, rotat).w.disk);
      }
    }
  }

  lemma RunLoses(d: Disk, run: Run)
    requires !run.useF
    ensures AllExtend(d, AfterRun(d, run).w.disk)
  {
    hide AllExtend, Open, Loop, HeaderOf, SysInit, Clear, Stamp;
    var o, w0 := OptionsOf(run), AtStart(d, run);
    OpenLoses(o, w0, run.busyOpen, run.time, run.ident);
    var w := Ready(d, run);
    LoopLoses(o, w, run.ticks, None, run.rotat);
    ExtendTrans(d, w.disk, Loop(o, w, run.ticks, None, run.rotat).w.disk);
    AppendedLoses(w, Record(Stamp(run.dummy, R_DUMMY), []));
    ExtendTrans(d, w.disk, Appended(w, Record(Stamp(run.dummy, R_DUMMY), [])).disk);
  }

  lemma AppendedLoses(w: World, r: Record)
    ensures AllExtend(w.disk, Appended(w, r).disk)
  {}

  /** Without -F no record that was in a file is ever lost or moved, over any number of runs. */
  lemma {:induction false} RunsLose(d: Disk, runs: seq<Run>)
    requires forall k :: 0 <= k < |runs| ==> !runs[k].useF
    ensures AllExtend(d, AfterRuns(d, runs))
    decreases |runs|
  {
    hide AllExtend, AfterRun;
    ExtendSelf(d);
    if runs != [] {
      var before := AfterRuns(d, runs[..|runs| - 1]);
      RunsLose(d, runs[..|runs| - 1]);
      RunLoses(before, runs[|runs| - 1]);
      ExtendTrans(d, before, AfterRuns(d, runs));
    }
  }

  /** The last record of a file is of that sample, array by array. */
  predicate EndsWith(v: FileView, s: Sample) {
    && v.Activity? && v.recs != []
    && var r := v.recs[|v.recs| - 1];
       r.stats == Stamp(s.stats, R_STATS) && Carries(CountsIn(v.hdr, 0), r.extra, s)
  }

  /** A rotation ends the old file and begins the new one with one and the same sample. */
  lemma RotationOverlaps(o: Options, w: World, t: Tick, newFile: string)
    requires Sound(w) && w.ofile != "" && newFile != "" && newFile != w.ofile
    requires !Refused(o, w, t.busy)
    requires Turn(o, w, t, Some(newFile)).o.Done?
    ensures var d := Turn(o, w, t, Some(newFile)).w.disk;
            EndsWith(Find(d, w.ofile), t.sample) && EndsWith(Find(d, newFile), t.sample)
  {
    hide HeaderOf, SetFlag, SameBlocks, RecordOf, Stamp, Open, Opens, Creates, WriteTo, EndsWith;
    var sent := Send(o, w, Rec(RecordOf(w.counts, t.sample, R_LAST_STATS)));
    WriteToEnds(o, sent, t.sample, t.busy);
    var w1 := Collect(o, w, t, true);
    CollectKeeps(o, w, t, true);
    CollectOthers(o, w, t, true);
    var w2 := Turned(o, w1, t, newFile);
    OpenKeeps(o, w2, t.busyNew, t.time, t.ident);
    OpenOthers(o, w2, t.busyNew, t.time, t.ident);
    OpenOnly(o, w2, t.busyNew, t.time, t.ident, w.ofile);
    OpenIff(o, w2, t.busyNew, t.time, t.ident);
    CreatedFree(o, Find(w2.disk, w2.ofile), t.busyNew, w2.counts.cpuNr);
    var w3 := Open(o, w2, t.busyNew, t.time, t.ident).w;
    LockStays(o, sent, t.sample, t.busy);
    WriteToEnds(o, w3, t.sample, t.busyNew);
    WriteToOnly(o, w3, t.sample, t.busyNew, w.ofile);
  }

  lemma WriteToEnds(o: Options, w: World, s: Sample, busy: bool)
    requires FitsFile(w) && !Refused(o, w, busy)
    ensures EndsWith(Find(WriteTo(o, w, s, busy).disk, w.ofile), s)
  {
    hide Carries, SameBlocks, Stamp, RecordOf;
    var h, r := Find(w.disk, w.ofile).hdr, RecordOf(w.counts, s, R_STATS);
    RecordCarries(w.counts, s, R_STATS);
    SameCarries(w.counts, CountsIn(h, 0), r.extra, s);
  }

  lemma LockStays(o: Options, w: World, s: Sample, busy: bool)
    ensures var w' := WriteTo(o, w, s, busy); w'.locked == (w.locked || (o.useL && !busy))
  {
    hide RecordOf;
  }

  lemma WriteToOnly(o: Options, w: World, s: Sample, busy: bool, name: string)
    requires name != w.ofile
    ensures Find(WriteTo(o, w, s, busy).disk, name) == Find(w.disk, name)
  {
    hide RecordOf;
  }

  lemma OpenOnly(o: Options, w: World, busy: bool, time: Time, ident: Ident, name: string)
    requires name != w.ofile
    ensures Find(Open(o, w, busy, time, ident).w.disk, name) == Find(w.disk, name)
  {
    hide HeaderOf, ForceTo;
  }
}
