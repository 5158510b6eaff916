/** What the runs of sadc send to sar, and when sar gets it as it was sent. */
module CollectingPipe {
  import opened Bytes
  import opened Framing
  import opened SaFormat
  import opened SaFlags
  import opened SaCounts
  import opened SaBlocks
  import opened SarPipe
  import opened Collecting

  // ---------- what is sent ----------

  /** What is due on the pipe: a header, or a sample, marked as the last one before a header or not. */
  datatype Sent = Announced | Sampled(s: Sample, last: bool)

  /** One record for every turn, marked exactly if the turn rotates the files, and one header after
      every mark. */
  function PipeDue(ticks: seq<Tick>, ofile: string, next: Option<string>, rotat: bool): seq<Sent>
    decreases |ticks|
  {
    if ticks == [] then []
    else
      var t := ticks[0];
      var file := if next.Some? then next.value else ofile;
      TurnSends(t, next) + PipeDue(ticks[1..], file, Noticed(file, t, rotat), rotat)
  }

  function TurnSends(t: Tick, next: Option<string>): seq<Sent> {
    if next.Some? then [Sampled(t.sample, true), Announced] else [Sampled(t.sample, false)]
  }

  /** The items a turn sends, in full. */
  function TurnItems(w: World, t: Tick, next: Option<string>): seq<Item> {
    if next.Some? then
      [Rec(RecordOf(w.counts, t.sample, R_LAST_STATS)), Hdr(HeaderOf(SysInit(w.counts, t.machine), t.time, t.ident))]
    else [Rec(RecordOf(w.counts, t.sample, R_STATS))]
  }

  lemma TurnPipe(o: Options, w: World, t: Tick, next: Option<string>)
    ensures Turn(o, w, t, next).w.pipe == w.pipe + if o.toStdout then TurnItems(w, t, next) else []
  {
    hide WriteTo, Open, HeaderOf, SysInit, RecordOf;
    var sent := Send(o, w, Rec(RecordOf(w.counts, t.sample, if next.Some? then R_LAST_STATS else R_STATS)));
    WriteToOthers(o, sent, t.sample, t.busy);
    if next.Some? {
      var w2 := Turned(o, Collect(o, w, t, true), t, next.value);
      OpenOthers(o, w2, t.busyNew, t.time, t.ident);
      WriteToOthers(o, Open(o, w2, t.busyNew, t.time, t.ident).w, t.sample, t.busyNew);
    }
  }

  /** A record with the file_stats of the sample, its mark, and each array in its own place. */
  predicate Shows(c: Counts, i: Item, s: Sample, last: bool) {
    && i.Rec?
    && i.r.stats == Stamp(s.stats, if last then R_LAST_STATS else R_STATS)
    && Carries(c, i.r.extra, s)
  }

  /** The items are what is due. A record carries its sample in the blocks of the counts in force; these
      are c at first, and after each header those that the file found in the rotation leads to. */
  predicate Follows(items: seq<Item>, due: seq<Sent>, c: Counts, rotations: seq<Rotation>, pidNr: uint32)
    decreases |items|
  {
    && |items| == |due|
    && (items != [] ==>
          match due[0]
          case Sampled(s, last) =>
            Shows(c, items[0], s, last) && Follows(items[1..], due[1..], c, rotations, pidNr)
          case Announced =>
            && items[0].Hdr? && rotations != []
            && SameBlocks(rotations[0].c, CountsIn(items[0].h, pidNr))
            && (|items| > 1 ==> rotations[0].followed)
            && Follows(items[1..], due[1..], Reopened(rotations[0].c, rotations[0].found), rotations[1..], pidNr))
  }

  lemma FollowSample(i: Item, items: seq<Item>, s: Sample, last: bool, due: seq<Sent>, c: Counts,
                     rotations: seq<Rotation>, pidNr: uint32)
    requires Shows(c, i, s, last) && Follows(items, due, c, rotations, pidNr)
    ensures Follows([i] + items, [Sampled(s, last)] + due, c, rotations, pidNr)
  {
    hide Shows;
    assert ([i] + items)[1..] == items && ([Sampled(s, last)] + due)[1..] == due;
  }

  lemma FollowHeader(i: Item, items: seq<Item>, due: seq<Sent>, c: Counts, r: Rotation, rotations: seq<Rotation>,
                     pidNr: uint32)
    requires i.Hdr? && SameBlocks(r.c, CountsIn(i.h, pidNr)) && (items != [] ==> r.followed)
    requires Follows(items, due, Reopened(r.c, r.found), rotations, pidNr)
    ensures Follows([i] + items, [Announced] + due, c, [r] + rotations, pidNr)
  {
    hide Shows, SameBlocks, Reopened;
    assert ([i] + items)[1..] == items && ([Announced] + due)[1..] == due && ([r] + rotations)[1..] == rotations;
  }

  /** One turn, given what comes after it. */
  lemma TurnFollows(w: World, t: Tick, next: Option<string>, r: Rotation, more: seq<Item>, due: seq<Sent>,
                    rotations: seq<Rotation>, pidNr: uint32)
    requires w.counts.pidNr == pidNr && r.c == SysInit(w.counts, t.machine)
    requires next.Some? ==> (more != [] ==> r.followed)
    requires Follows(more, due, if next.Some? then Reopened(r.c, r.found) else w.counts, rotations, pidNr)
    ensures Follows(TurnItems(w, t, next) + more, TurnSends(t, next) + due, w.counts,
                    (if next.Some? then [r] else []) + rotations, pidNr)
  {
    hide RecordOf, HeaderOf, SysInit, Carries, SameBlocks, Reopened, Follows, Stamp;
    var last := next.Some?;
    var rtype := if last then R_LAST_STATS else R_STATS;
    var i := Rec(RecordOf(w.counts, t.sample, rtype));
    RecordCarries(w.counts, t.sample, rtype);
    if next.Some? {
      var h := Hdr(HeaderOf(r.c, t.time, t.ident));
      HeaderTells(r.c, t.time, t.ident);
      SysInitPids(w.counts, t.machine);
      FollowHeader(h, more, due, w.counts, r, rotations, pidNr);
      FollowSample(i, [h] + more, t.sample, last, [Announced] + due, w.counts, [r] + rotations, pidNr);
      assert [i] + ([h] + more) == [i, h] + more;
      assert [Sampled(t.sample, last)] + ([Announced] + due) == [Sampled(t.sample, last), Announced] + due;
    } else {
      FollowSample(i, more, t.sample, last, due, w.counts, rotations, pidNr);
      assert [] + rotations == rotations;
    }
  }

  /** What was sent between two states of the pipe follows a first part of what was due. */
  predicate SentPart(before: seq<Item>, after: seq<Item>, due: seq<Sent>, c: Counts, rotations: seq<Rotation>) {
    && before <= after && |after| - |before| <= |due|
    && Follows(after[|before|..], due[..|after| - |before|], c, rotations, c.pidNr)
  }

  /** The loop sends what is due, all of it unless a day file cannot be opened. */
  lemma {:induction false} LoopSends(o: Options, w: World, ticks: seq<Tick>, next: Option<string>, rotat: bool)
    requires o.toStdout
    ensures var r, due := Loop(o, w, ticks, next, rotat), PipeDue(ticks, w.ofile, next, rotat);
            && SentPart(w.pipe, r.w.pipe, due, w.counts, Rotations(o, w, ticks, next, rotat))
            && (r.o.Done? ==> |r.w.pipe| == |w.pipe| + |due|)
    decreases |ticks|
  {
    hide Turn, TurnItems, TurnSends, SentPart, RotationOf, Reopened;
    NothingSince(w.pipe, w.counts, []);
    if ticks != [] {
      var t, r, file := ticks[0], Turn(o, w, ticks[0], next), if next.Some? then next.value else "";
      var x := RotationOf(o, w, t, file, r.o.Done? && |ticks| > 1);
      TurnPipe(o, w, t, next);
      RotationCounts(o, w, t, file, r.o.Done? && |ticks| > 1);
      RotationFields(o, w, t, file, r.o.Done? && |ticks| > 1);
      TurnLengths(w, t, next);
      if r.o.Done? {
        TurnFile(o, w, t, next);
        TurnCounts(o, w, t, next);
        PidsStay(o, w, t, next);
        var n := Noticed(r.w.ofile, t, rotat);
        LoopSends(o, r.w, ticks[1..], n, rotat);
        var later, rest := PipeDue(ticks[1..], r.w.ofile, n, rotat), Rotations(o, r.w, ticks[1..], n, rotat);
        TurnSent(w, t, next, x, Loop(o, w, ticks, next, rotat).w.pipe, later, rest);
      } else {
        var c := if next.Some? then Reopened(x.c, x.found) else w.counts;
        var file := if next.Some? then next.value else w.ofile;
        NothingSince(r.w.pipe, c, []);
        ReopenedPids(x);
        SysInitPids(w.counts, t.machine);
        TurnSent(w, t, next, x, r.w.pipe, PipeDue(ticks[1..], file, Noticed(file, t, rotat), rotat), []);
      }
    }
  }

  lemma ReopenedPids(r: Rotation)
    ensures Reopened(r.c, r.found).pidNr == r.c.pidNr
  {}

  lemma TurnSent(w: World, t: Tick, next: Option<string>, x: Rotation, end: seq<Item>, later: seq<Sent>,
                 rest: seq<Rotation>)
    requires x.c == SysInit(w.counts, t.machine)
    requires next.Some? && end != w.pipe + TurnItems(w, t, next) ==> x.followed
    requires var c := if next.Some? then Reopened(x.c, x.found) else w.counts;
             c.pidNr == w.counts.pidNr && SentPart(w.pipe + TurnItems(w, t, next), end, later, c, rest)
    ensures SentPart(w.pipe, end, TurnSends(t, next) + later, w.counts, (if next.Some? then [x] else []) + rest)
  {
    hide TurnItems, TurnSends, Follows, Reopened, SysInit;
    var items, now := TurnItems(w, t, next), TurnSends(t, next);
    var more := end[|w.pipe| + |items|..];
    TurnLengths(w, t, next);
    assert end == w.pipe + items + more;
    TurnFollows(w, t, next, x, more, later[..|more|], rest, w.counts.pidNr);
    assert end[|w.pipe|..] == items + more;
    assert (now + later)[..|items| + |more|] == now + later[..|more|];
  }

  lemma NoneFollow(c: Counts, rotations: seq<Rotation>)
    ensures forall pidNr: uint32 :: Follows([], [], c, rotations, pidNr)
  {}

  lemma NothingSince(pipe: seq<Item>, c: Counts, rotations: seq<Rotation>)
    ensures forall due: seq<Sent> {:trigger SentPart(pipe, pipe, due, c, rotations)} ::
              SentPart(pipe, pipe, due, c, rotations)
  {
    assert pipe[|pipe|..] == [];
  }

  lemma TurnLengths(w: World, t: Tick, next: Option<string>)
    ensures |TurnItems(w, t, next)| == |TurnSends(t, next)|
  {}

  lemma RotationCounts(o: Options, w: World, t: Tick, next: string, followed: bool)
    ensures var x := RotationOf(o, w, t, next, followed); x.c == SysInit(w.counts, t.machine) && x.followed == followed
  {}

  /** The same turn by turn: the sample of turn k is marked and a header follows exactly if a day file
      other than the one in use is current before that turn. */
  function PipePlan(ticks: seq<Tick>, ofile: string, k: nat, rotat: bool): seq<Sent>
    requires k <= |ticks|
    decreases |ticks| - k
  {
    if k == |ticks| then []
    else
      var s := ticks[k].sample;
      (if rotat && k > 0 && ticks[k - 1].today != (if k == 1 then ofile else ticks[k - 2].today)
       then [Sampled(s, true), Announced] else [Sampled(s, false)]) +
      PipePlan(ticks, ofile, k + 1, rotat)
  }

  lemma {:induction false} DueIsPlan(ticks: seq<Tick>, ofile: string, k: nat, rotat: bool)
    requires k <= |ticks|
    ensures PipeDue(ticks[k..], InUse(ticks, ofile, k, rotat), NewDay(ticks, ofile, k, rotat), rotat) ==
            PipePlan(ticks, ofile, k, rotat)
    decreases |ticks| - k
  {
    if k < |ticks| {
      DueIsPlan(ticks, ofile, k + 1, rotat);
      DayStep(ticks, ofile, k, rotat);
      assert ticks[k..][0] == ticks[k] && ticks[k..][1..] == ticks[k + 1..];
    }
  }

  /** What a run sends after its header. */
  function RunSends(run: Run): seq<Sent> {
    if run.interval then PipePlan(run.ticks, run.ofile, 0, run.rotat) else []
  }

  /** A run sends a header with the counts in force once its file is open, and then what its turns are due:
      all of it unless a day file cannot be opened. */
  lemma RunPipe(d: Disk, run: Run)
    ensures var r, sent, start := AfterRun(d, run), AfterRun(d, run).w.pipe, Opening(d, run);
            if start.o.Done? && (run.ofile == "" || run.optz) then
              var h := Hdr(HeaderOf(start.w.counts, run.time, run.ident));
              && SentPart([h], sent, RunSends(run), start.w.counts, RunRotations(d, run))
              && (r.o.Done? ==> |sent| == 1 + |RunSends(run)|)
            else sent == []
  {
    hide Open, Loop, HeaderOf, SysInit, Clear, Stamp, SentPart, PipeDue, PipePlan, Appended, Rotations;
    var o, w0 := OptionsOf(run), AtStart(d, run);
    OpenOthers(o, w0, run.busyOpen, run.time, run.ident);
    var w := Ready(d, run);
    MarkPipe(w, Record(Stamp(run.dummy, R_DUMMY), []));
    NothingSince(w.pipe, w.counts, RunRotations(d, run));
    DueIsPlan(run.ticks, run.ofile, 0, run.rotat);
    assert run.ticks[0..] == run.ticks;
    assert o.toStdout ==> w.pipe == [Hdr(HeaderOf(Opening(d, run).w.counts, run.time, run.ident))];
    if o.toStdout {
      LoopSends(o, w, run.ticks, None, run.rotat);
    } else {
      LoopSilent(o, w, run.ticks, None, run.rotat);
    }
  }

  lemma MarkPipe(w: World, r: Record)
    ensures Appended(w, r).pipe == w.pipe
  {}

  lemma {:induction false} LoopSilent(o: Options, w: World, ticks: seq<Tick>, next: Option<string>, rotat: bool)
    requires !o.toStdout
    ensures Loop(o, w, ticks, next, rotat).w.pipe == w.pipe
    decreases |ticks|
  {
    hide Turn, TurnItems, TurnSends;
    if ticks != [] {
      var r := Turn(o, w, ticks[0], next);
      TurnPipe(o, w, ticks[0], next);
      if r.o.Done? { LoopSilent(o, r.w, ticks[1..], Noticed(r.w.ofile, ticks[0], rotat), rotat); }
    }
  }

  // ---------- when sar gets what was sent ----------

  /** The new day file leaves the collector with the blocks it has just announced. */
  predicate Compatible(r: Rotation) {
    WriterBlocks(Reopened(r.c, r.found)) == WriterBlocks(r.c)
  }

  /** Only samples sent after a rotation can do harm. */
  predicate AllHarmless(rotations: seq<Rotation>) {
    forall r :: r in rotations && r.followed ==> Compatible(r)
  }

  lemma HarmlessAppend(a: seq<Rotation>, b: seq<Rotation>)
    ensures AllHarmless(a + b) <==> AllHarmless(a) && AllHarmless(b)
  {
    hide Compatible;
    assert forall r :: r in a || r in b ==> r in a + b;
  }

  /** The pipe is in step and the header last sent announces the blocks now being written. */
  predicate PipeFits(w: World, pids: bool) {
    var e := End(START, w.pipe);
    && InStep(START, w.pipe, pids)
    && e.WantRec?
    && PipeFrame(e.h, pids) == Frame(FILE_STATS_SIZE, WriterBlocks(w.counts))
  }

  /** A record formed with the announced counts keeps the pipe in step. */
  lemma RecordFollows(items: seq<Item>, c: Counts, s: Sample, rtype: byte, pids: bool)
    requires InStep(START, items, pids) && End(START, items).WantRec?
    requires PipeFrame(End(START, items).h, pids) == Frame(FILE_STATS_SIZE, WriterBlocks(c))
    requires rtype == R_STATS || rtype == R_LAST_STATS
    ensures var i := Rec(RecordOf(c, s, rtype)); var e := End(START, items);
            && InStep(START, items + [i], pids)
            && End(START, items + [i]) ==
               if rtype == R_STATS || e.first then WantRec(e.h, false) else WantHdr(false)
  {
    hide WriterBlocks, Payload, PipeFrame;
    RecordFits(c, s, rtype);
    InStepAppend(START, items, Rec(RecordOf(c, s, rtype)), pids);
  }

  /** A record formed with other counts than those announced does not. */
  lemma RecordBreaks(items: seq<Item>, c: Counts, s: Sample, rtype: byte, pids: bool)
    requires End(START, items).WantRec? && (rtype == R_STATS || rtype == R_LAST_STATS)
    requires PipeFrame(End(START, items).h, pids).blocks != WriterBlocks(c)
    ensures !InStep(START, items + [Rec(RecordOf(c, s, rtype))], pids)
  {
    hide WriterBlocks, Payload, PipeFrame;
    RecordFits(c, s, rtype);
    var r := RecordOf(c, s, rtype);
    InStepAppend(START, items, Rec(r), pids);
    OneFit(r.extra, WriterBlocks(c), PipeFrame(End(START, items).h, pids).blocks);
  }

  lemma OneFit(blocks: seq<seq<byte>>, a: seq<nat>, b: seq<nat>)
    requires Fits(blocks, a)
    ensures Fits(blocks, b) ==> a == b
  {}

  /** A header sent where one is awaited announces the counts in force. */
  lemma HeaderFollows(items: seq<Item>, c: Counts, time: Time, ident: Ident, pids: bool)
    requires InStep(START, items, pids) && End(START, items).WantHdr?
    ensures var i := Hdr(HeaderOf(c, time, ident));
            && InStep(START, items + [i], pids)
            && End(START, items + [i]) == WantRec(HeaderOf(c, time, ident), End(START, items).first)
            && (pids || c.pidNr == 0 ==>
                  PipeFrame(HeaderOf(c, time, ident), pids) == Frame(FILE_STATS_SIZE, WriterBlocks(c)))
  {
    hide WriterBlocks, PipeBlocks;
    InStepAppend(START, items, Hdr(HeaderOf(c, time, ident)), pids);
    HeaderAnnounces(c, time, ident);
  }

  lemma TurnCounts(o: Options, w: World, t: Tick, next: Option<string>)
    requires Turn(o, w, t, next).o.Done?
    ensures Turn(o, w, t, next).w.counts ==
            if next.None? then w.counts
            else var r := RotationOf(o, w, t, next.value, false); Reopened(r.c, r.found)
  {
    hide Collect, Open, WriteTo, HeaderOf, SysInit, Opens, Creates;
    CollectOthers(o, w, t, next.Some?);
    if next.Some? {
      var w2 := Turned(o, Collect(o, w, t, true), t, next.value);
      OpenIff(o, w2, t.busyNew, t.time, t.ident);
      OpenNone(o, w2, t.busyNew, t.time, t.ident);
      WriteToOthers(o, Open(o, w2, t.busyNew, t.time, t.ident).w, t.sample, t.busyNew);
    }
  }

  lemma OpenNone(o: Options, w: World, busy: bool, time: Time, ident: Ident)
    ensures w.ofile == "" ==> Open(o, w, busy, time, ident).w == w
  {}

  /** One turn: the pipe stays in step, and fits what comes next if the rotation is compatible. */
  lemma TurnInStep(o: Options, w: World, t: Tick, next: Option<string>, pids: bool)
    requires o.toStdout && Sound(w) && PipeFits(w, pids) && (pids || w.counts.pidNr == 0)
    requires next.Some? ==> w.ofile != "" && next.value != "" && !End(START, w.pipe).first
    ensures var r := Turn(o, w, t, next); var e := End(START, r.w.pipe);
            && InStep(START, r.w.pipe, pids) && e.WantRec? && !e.first
            && (r.o.Done? ==>
                  (PipeFits(r.w, pids) <==> next.None? || Compatible(RotationOf(o, w, t, next.value, false))))
            && (r.o.Done? ==>
                  (PipeFits(r.w, pids) <==> PipeFrame(e.h, pids).blocks == WriterBlocks(r.w.counts)))
  {
    hide Turn, HeaderOf, RecordOf, WriterBlocks, PipeFrame, InStep, End, SysInit, Reopened, FitsFile;
    TurnPipe(o, w, t, next);
    var rtype := if next.Some? then R_LAST_STATS else R_STATS;
    var p1 := w.pipe + [Rec(RecordOf(w.counts, t.sample, rtype))];
    RecordFollows(w.pipe, w.counts, t.sample, rtype, pids);
    if Turn(o, w, t, next).o.Done? { TurnCounts(o, w, t, next); }
    FrameSize(End(START, w.pipe).h, pids);
    if next.Some? {
      var c := SysInit(w.counts, t.machine);
      SysInitPids(w.counts, t.machine);
      HeaderFollows(p1, c, t.time, t.ident, pids);
      assert p1 + [Hdr(HeaderOf(c, t.time, t.ident))] == w.pipe + TurnItems(w, t, next);
      FrameSize(HeaderOf(c, t.time, t.ident), pids);
    }
  }

  lemma SysInitPids(c: Counts, m: Machine)
    ensures SysInit(c, m).pidNr == c.pidNr
  {}

  lemma FrameSize(h: Header, pids: bool)
    ensures PipeFrame(h, pids) == Frame(h.stSize, PipeFrame(h, pids).blocks)
  {}

  /** The stream of the loop is one that sar can follow exactly if no rotation that is followed by
      another sample has found a file with other blocks. */
  lemma {:induction false} LoopInStep(o: Options, w: World, ticks: seq<Tick>, next: Option<string>, rotat: bool,
                                      pids: bool)
    requires o.toStdout && Sound(w) && Rotatable(w, ticks, next, rotat)
    requires PipeFits(w, pids) && (pids || w.counts.pidNr == 0)
    requires next.Some? ==> !End(START, w.pipe).first
    ensures InStep(START, Loop(o, w, ticks, next, rotat).w.pipe, pids) <==>
            AllHarmless(Rotations(o, w, ticks, next, rotat))
    decreases |ticks|
  {
    hide Turn, Sound, Rotatable, RotationOf, Compatible, PipeFits, InStep, End, PipeFrame, WriterBlocks;
    PipeFitsInStep(w, pids);
    if ticks != [] {
      var t, r := ticks[0], Turn(o, w, ticks[0], next);
      Needed(w, ticks, next, rotat);
      TurnKeeps(o, w, t, next);
      TurnInStep(o, w, t, next, pids);
      RotationFields(o, w, t, if next.Some? then next.value else "", r.o.Done? && |ticks| > 1);
      var mine := if next.Some? then [RotationOf(o, w, t, next.value, r.o.Done? && |ticks| > 1)] else [];
      if r.o.Done? {
        var n := Noticed(r.w.ofile, t, rotat);
        RotatableOn(o, w, ticks, next, rotat);
        HarmlessAppend(mine, Rotations(o, r.w, ticks[1..], n, rotat));
        CompatibleFields(o, w, t, next);
        if PipeFits(r.w, pids) {
          PidsStay(o, w, t, next);
          LoopInStep(o, r.w, ticks[1..], n, rotat, pids);
        } else if |ticks| > 1 {
          assert mine[0] in mine;
          NextBreaks(o, r.w, ticks[1..], n, rotat, pids);
        }
      }
    }
  }

  lemma PipeFitsInStep(w: World, pids: bool)
    requires PipeFits(w, pids)
    ensures InStep(START, w.pipe, pids)
  {}

  lemma CompatibleFields(o: Options, w: World, t: Tick, next: Option<string>)
    ensures next.Some? ==>
              forall f: bool ::
                Compatible(RotationOf(o, w, t, next.value, f)) == Compatible(RotationOf(o, w, t, next.value, false))
  {
    hide Find, WriterBlocks, SysInit, Collect;
  }

  lemma PidsStay(o: Options, w: World, t: Tick, next: Option<string>)
    requires Turn(o, w, t, next).o.Done?
    ensures Turn(o, w, t, next).w.counts.pidNr == w.counts.pidNr
  {
    hide Turn, Collect;
    TurnCounts(o, w, t, next);
  }

  /** The next record, of whatever kind, is one too many. */
  lemma NextBreaks(o: Options, w: World, ticks: seq<Tick>, next: Option<string>, rotat: bool, pids: bool)
    requires o.toStdout && ticks != [] && End(START, w.pipe).WantRec?
    requires PipeFrame(End(START, w.pipe).h, pids).blocks != WriterBlocks(w.counts)
    ensures !InStep(START, Loop(o, w, ticks, next, rotat).w.pipe, pids)
  {
    hide Turn, RecordOf, HeaderOf, InStep, End, PipeFrame, WriterBlocks, SysInit;
    var t := ticks[0];
    var rtype := if next.Some? then R_LAST_STATS else R_STATS;
    var p1 := w.pipe + [Rec(RecordOf(w.counts, t.sample, rtype))];
    TurnPipe(o, w, t, next);
    RecordBreaks(w.pipe, w.counts, t.sample, rtype, pids);
    var r := Turn(o, w, t, next);
    if r.o.Done? { LoopSends(o, r.w, ticks[1..], Noticed(r.w.ofile, t, rotat), rotat); }
    var all := Loop(o, w, ticks, next, rotat).w.pipe;
    assert p1 <= r.w.pipe <= all;
    assert all == p1 + all[|p1|..];
    if InStep(START, all, pids) { InStepPrefix(START, p1, all[|p1|..], pids); }
  }

  /** Rotations of a run. */
  function RunRotations(d: Disk, run: Run): seq<Rotation> {
    if run.interval && Opening(d, run).o.Done? && OptionsOf(run).toStdout then
      Rotations(OptionsOf(run), Ready(d, run), run.ticks, None, run.rotat)
    else []
  }

  /** sar reads the process blocks that were asked for. */
  predicate SamePids(run: Run, pids: bool) {
    pids || run.pidNr == 0 || run.ofile != ""
  }

  /** sar gets from a run exactly what was sent if and only if every rotation that is followed by
      another sample leaves the blocks as announced. */
  lemma RunInStep(d: Disk, run: Run, pids: bool)
    requires Whole(d) && ValidRun(run) && SamePids(run, pids)
    ensures var sent := AfterRun(d, run).w.pipe;
            ReadItems(START, EncodeItems(sent), pids) == sent <==> AllHarmless(RunRotations(d, run))
  {
    hide Open, Loop, Rotations, HeaderOf, SetFlag, Clear, Stamp, Appended, ReadItems, InStep, End, PipeFrame,
         WriterBlocks, FitsFile, Compatible;
    var o, w0 := OptionsOf(run), AtStart(d, run);
    var sent := AfterRun(d, run).w.pipe;
    InStepIffRead(START, sent, pids);
    OpenOthers(o, w0, run.busyOpen, run.time, run.ident);
    ReadyKeeps(d, run);
    NothingSent(pids);
    if Opening(d, run).o.Done? {
      var w := Ready(d, run);
      var c := Opening(d, run).w.counts;
      OpenPids(o, w0, run.busyOpen, run.time, run.ident);
      HeaderFollows([], c, run.time, run.ident, pids);
      assert [] + [Hdr(HeaderOf(c, run.time, run.ident))] == [Hdr(HeaderOf(c, run.time, run.ident))];
      MarkPipe(w, Record(Stamp(run.dummy, R_DUMMY), []));
      if o.toStdout && run.interval {
        LoopInStep(o, w, run.ticks, None, run.rotat, pids);
      } else if run.interval {
        LoopSilent(o, w, run.ticks, None, run.rotat);
      }
    }
  }

  // ---------- what sar is told ----------

  /** The same as the reader sees it: each record carries its sample in the blocks that the header last
      sent tells of. */
  predicate Told(items: seq<Item>, due: seq<Sent>, c: Counts)
    decreases |items|
  {
    && |items| == |due|
    && (items != [] ==>
          match due[0]
          case Sampled(s, last) => Shows(c, items[0], s, last) && Told(items[1..], due[1..], c)
          case Announced => items[0].Hdr? && Told(items[1..], due[1..], CountsIn(items[0].h, c.pidNr)))
  }

  /** The new day file leaves the collector with blocks of the kinds it has just announced. */
  predicate Alike(r: Rotation) {
    SameBlocks(Reopened(r.c, r.found), r.c)
  }

  predicate AllAlike(rotations: seq<Rotation>) {
    forall r :: r in rotations && r.followed ==> Alike(r)
  }

  lemma {:induction false} FollowsTold(items: seq<Item>, due: seq<Sent>, c: Counts,
                                       rotations: seq<Rotation>, told: Counts)
    requires Follows(items, due, c, rotations, told.pidNr) && AllAlike(rotations)
    requires items != [] ==> SameBlocks(c, told)
    ensures Told(items, due, told)
    decreases |items|
  {
    hide SameBlocks, Carries, Stamp, Reopened;
    if items != [] {
      match due[0]
      case Sampled(s, last) =>
        SameCarries(c, told, items[0].r.extra, s);
        FollowsTold(items[1..], due[1..], c, rotations, told);
      case Announced =>
        var r, h := rotations[0], CountsIn(items[0].h, told.pidNr);
        assert r in rotations && forall x :: x in rotations[1..] ==> x in rotations;
        if |items| > 1 { SameTrans(Reopened(r.c, r.found), r.c, h); }
        FollowsTold(items[1..], due[1..], Reopened(r.c, r.found), rotations[1..], h);
    }
  }

  lemma SameTrans(a: Counts, b: Counts, c: Counts)
    requires SameBlocks(a, b) && SameBlocks(b, c)
    ensures SameBlocks(a, c)
  {
    hide BlockSize;
  }

  /** If no rotation that is followed by another sample leads to a file with other kinds of blocks, sar
      reads from a run exactly what was sent, and in the blocks it was told of it finds the samples,
      each array in its own place. */
  lemma RunTold(d: Disk, run: Run, pids: bool)
    requires Whole(d) && ValidRun(run) && SamePids(run, pids)
    requires AllAlike(RunRotations(d, run)) && AfterRun(d, run).w.pipe != []
    ensures var sent := AfterRun(d, run).w.pipe; var pidNr := if run.ofile == "" then run.pidNr else 0;
            && ReadItems(START, EncodeItems(sent), pids) == sent
            && sent[0].Hdr? && |sent| - 1 <= |RunSends(run)|
            && Told(sent[1..], RunSends(run)[..|sent| - 1], CountsIn(sent[0].h, pidNr))
  {
    hide AfterRun, RunRotations, RunSends, Follows, Told, SameBlocks, Open, SysInit, HeaderOf, ReadItems, WriterBlocks;
    RunInStep(d, run, pids);
    AlikeHarmless(RunRotations(d, run));
    RunPipe(d, run);
    var c, sent := Opening(d, run).w.counts, AfterRun(d, run).w.pipe;
    OpenPids(OptionsOf(run), AtStart(d, run), run.busyOpen, run.time, run.ident);
    StartPids(d, run);
    HeaderTells(c, run.time, run.ident);
    FollowsTold(sent[1..], RunSends(run)[..|sent| - 1], c, RunRotations(d, run), CountsIn(sent[0].h, c.pidNr));
  }

  /** A rotation from nine serial lines to a file of two interfaces: sar stays in step, for the blocks have the
      same size, but is told of serial lines. */
  lemma KindsMistaken(time: Time, ident: Ident)
    ensures var serial, iface := Counts(A_SERIAL, 0, 9, 0, 0, 0, 0), Counts(A_NET_DEV, 0, 0, 0, 2, 0, 0);
            var r := Rotation(serial, Activity(HeaderOf(iface, time, ident), []), false, true);
            Reopened(r.c, r.found) == iface && Compatible(r) && !Alike(r)
  {
    var serial, iface := Counts(A_SERIAL, 0, 9, 0, 0, 0, 0), Counts(A_NET_DEV, 0, 0, 0, 2, 0, 0);
    assert WriterBlocks(serial) == [288] && WriterBlocks(iface) == [288];
    assert BlockSize(serial, KINDS[3]) != BlockSize(iface, KINDS[3]);
  }

  lemma StartPids(d: Disk, run: Run)
    ensures AtStart(d, run).counts.pidNr == if run.ofile == "" then run.pidNr else 0
  {}

  lemma AlikeHarmless(rotations: seq<Rotation>)
    requires AllAlike(rotations)
    ensures AllHarmless(rotations)
  {
    hide SameBlocks, WriterBlocks, Reopened;
    forall r | r in rotations && r.followed ensures Compatible(r) {
      assert Alike(r);
      SameWriterBlocks(Reopened(r.c, r.found), r.c);
    }
  }

  lemma NothingSent(pids: bool)
    ensures InStep(START, [], pids) && End(START, []) == START
  {}

  lemma OpenPids(o: Options, w: World, busy: bool, time: Time, ident: Ident)
    ensures Open(o, w, busy, time, ident).w.counts.pidNr == w.counts.pidNr
  {
    hide HeaderOf;
  }
}
