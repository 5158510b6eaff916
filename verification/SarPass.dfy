/** What sar -f has to print of an activity file: every boot segment is replayed once for each activity
    (sar.c: read_stats_from_file, handle_curr_act_stats, write_stats, write_stats_avg). The file is
    the list of its records, which Framing and SaFormat justify. */
module SarPass {
  import opened Bytes
  import opened Slices

  /** A restart marker, or a record. `counter` stands for any cumulative counter of file_stats,
      `gauge` for any of the values that write_stats sums up for the average. */
  datatype Rec = Dummy(tod: Tod) | Stats(uptime: uint64, uptime0: uint64, tod: Tod, counter: uint64, gauge: nat)

  /** `count` is negative for "all"; `acts` are the activities asked for, one pass each. */
  datatype Options = Options(count: int, interval: nat, procs: nat, start: Option<Tod>, end: Option<Tod>,
                             acts: seq<nat>)

  predicate ValidOptions(o: Options) {
    o.count != 0 && o.interval > 0 && o.acts != []
  }

  datatype Out =
    | Line(act: nat, prev: Rec, cur: Rec)
    | Average(act: nat, first: Rec, last: Rec, lines: nat, sum: nat)
    | Restart(rec: Rec)

  // ---------- what a pass must do ----------

  datatype Verdict = Skip | Show | Late

  predicate TooSoon(o: Options, r: Rec) {
    o.start.Some? && DateCmp(r.tod, o.start.value) < 0
  }

  function Judge(o: Options, base: Rec, last: uint64, r: Rec): Verdict
    requires o.interval > 0 && base.Stats? && r.Stats?
  {
    if !Shown(base.uptime, last, r.uptime, o.procs, o.interval) || TooSoon(o, r) then Skip
    else if o.end.Some? && DateCmp(r.tod, o.end.value) > 0 then Late
    else Show
  }

  datatype Stop = AtEof | AtRestart | Counted
  datatype PassResult = PassResult(shown: seq<Rec>, used: nat, stop: Stop)

  /** A pass goes to the end or to a marker unless it is cut short; it runs over no marker. */
  predicate Consumes(p: PassResult, rest: seq<Rec>) {
    && p.used <= |rest|
    && (p.stop.AtEof? ==> p.used == |rest|)
    && (p.stop.AtRestart? ==> p.used > 0 && rest[p.used - 1].Dummy?)
    && forall i :: 0 <= i < p.used && (p.stop.AtRestart? ==> i < p.used - 1) ==> rest[i].Stats?
  }

  /** Which records of `rest` a pass shows, how many it consumes and why it ends; `last` is the
      uptime of the record before (0 at the start) and `n` the number of lines still wanted. */
  function Pass(o: Options, base: Rec, last: uint64, rest: seq<Rec>, n: int): (p: PassResult)
    requires ValidOptions(o) && base.Stats? && n != 0
    ensures p.used <= |rest| && (p.stop.AtEof? ==> p.used == |rest|)
    ensures Consumes(p, rest)
    ensures forall i :: 0 <= i < |p.shown| ==> p.shown[i].Stats?
    decreases |rest|
  {
    if rest == [] then PassResult([], 0, AtEof)
    else if rest[0].Dummy? then PassResult([], 1, AtRestart)
    else
      match Judge(o, base, last, rest[0])
      case Late => PassResult([], 1, Counted)
      case Skip =>
        var p := Pass(o, base, rest[0].uptime, rest[1..], n);
        PassResult(p.shown, p.used + 1, p.stop)
      case Show =>
        var left := if n > 0 then n - 1 else n;
        if left == 0 then PassResult([rest[0]], 1, Counted)
        else
          var p := Pass(o, base, rest[0].uptime, rest[1..], left);
          PassResult([rest[0]] + p.shown, p.used + 1, p.stop)
  }

  /** Each line compares a shown record with the one shown before it, the first with the base. */
  function Lines(act: nat, prev: Rec, shown: seq<Rec>): seq<Out>
    decreases |shown|
  {
    if shown == [] then [] else [Line(act, prev, shown[0])] + Lines(act, shown[0], shown[1..])
  }

  function Last(base: Rec, shown: seq<Rec>): Rec {
    if shown == [] then base else shown[|shown| - 1]
  }

  function Gauges(shown: seq<Rec>): nat {
    if shown == [] then 0
    else Gauges(shown[..|shown| - 1]) + (if shown[|shown| - 1].Stats? then shown[|shown| - 1].gauge else 0)
  }

  function PassOut(act: nat, base: Rec, shown: seq<Rec>): seq<Out> {
    Lines(act, base, shown) +
    if shown == [] then [] else [Average(act, base, Last(base, shown), |shown|, Gauges(shown))]
  }

  lemma {:induction false} LinesAppend(act: nat, prev: Rec, shown: seq<Rec>, r: Rec)
    ensures Lines(act, prev, shown + [r]) == Lines(act, prev, shown) + [Line(act, Last(prev, shown), r)]
    decreases |shown|
  {
    if shown == [] {
      assert [r][1..] == [];
    } else {
      assert (shown + [r])[1..] == shown[1..] + [r];
      LinesAppend(act, shown[0], shown[1..], r);
    }
  }

  predicate AllStats(shown: seq<Rec>) {
    forall i :: 0 <= i < |shown| ==> shown[i].Stats?
  }

  lemma PassStep(o: Options, base: Rec, last: uint64, rest: seq<Rec>, n: int)
    requires ValidOptions(o) && base.Stats? && n != 0
    ensures rest == [] ==> Pass(o, base, last, rest, n) == PassResult([], 0, AtEof)
    ensures rest != [] && rest[0].Dummy? ==> Pass(o, base, last, rest, n) == PassResult([], 1, AtRestart)
    ensures rest != [] && rest[0].Stats? ==>
              var v := Judge(o, base, last, rest[0]);
              var left := if v == Show && n > 0 then n - 1 else n;
              var mine := if v == Show then [rest[0]] else [];
              if v == Late || left == 0 then Pass(o, base, last, rest, n) == PassResult(mine, 1, Counted)
              else
                var p := Pass(o, base, rest[0].uptime, rest[1..], left);
                Pass(o, base, last, rest, n) == PassResult(mine + p.shown, p.used + 1, p.stop)
  {
    hide Judge;
    if rest != [] && rest[0].Stats? && Judge(o, base, last, rest[0]) == Skip {
      var p := Pass(o, base, rest[0].uptime, rest[1..], n);
      assert [] + p.shown == p.shown;
    }
  }

  // ---------- what the whole replay must do ----------

  datatype SeekResult = SeekResult(outs: seq<Out>, used: nat, found: bool)

  predicate OutOfHours(o: Options, r: Rec) {
    TooSoon(o, r) || (o.end.Some? && DateCmp(r.tod, o.end.value) >= 0)
  }

  /** Looking for a first record: markers are printed, records outside -s/-e are passed over. */
  function Seek(o: Options, rest: seq<Rec>): (k: SeekResult)
    ensures k.used <= |rest|
    ensures if k.found then k.used > 0 && rest[k.used - 1].Stats? else k.used == |rest|
    decreases |rest|
  {
    if rest == [] then SeekResult([], 0, false)
    else if rest[0].Stats? && !OutOfHours(o, rest[0]) then SeekResult([], 1, true)
    else
      var k := Seek(o, rest[1..]);
      SeekResult((if rest[0].Dummy? then [Restart(rest[0])] else []) + k.outs, k.used + 1, k.found)
  }

  lemma SeekStep(o: Options, rest: seq<Rec>)
    ensures rest == [] ==> Seek(o, rest) == SeekResult([], 0, false)
    ensures rest != [] && rest[0].Stats? && !OutOfHours(o, rest[0]) ==> Seek(o, rest) == SeekResult([], 1, true)
    ensures rest != [] && !(rest[0].Stats? && !OutOfHours(o, rest[0])) ==>
              var k := Seek(o, rest[1..]);
              var mark := if rest[0].Dummy? then [Restart(rest[0])] else [];
              Seek(o, rest) == SeekResult(mark + k.outs, k.used + 1, k.found)
  {}

  /** Position of the next marker, or the end. */
  function NextMarker(rest: seq<Rec>): (i: nat)
    ensures i <= |rest|
    ensures i < |rest| ==> rest[i].Dummy?
    ensures forall j :: 0 <= j < i ==> rest[j].Stats?
  {
    if rest == [] || rest[0].Dummy? then 0 else 1 + NextMarker(rest[1..])
  }

  function Passes(acts: seq<nat>, base: Rec, shown: seq<Rec>): seq<Out> {
    if acts == [] then [] else PassOut(acts[0], base, shown) + Passes(acts[1..], base, shown)
  }

  /** Records that the passes and the skipping after them use up, the marker included. */
  function SegmentEnd(p: PassResult, after: seq<Rec>): (n: nat)
    requires p.used <= |after| && (p.stop.AtEof? ==> p.used == |after|)
    ensures p.used <= n <= |after|
    ensures p.stop.Counted? && n < |after| ==> n > 0 && after[n - 1].Dummy?
  {
    if !p.stop.Counted? then p.used
    else
      var i := p.used + NextMarker(after[p.used..]);
      if i < |after| then i + 1 else i
  }

  predicate EndsAtMarker(p: PassResult, after: seq<Rec>)
    requires p.used <= |after|
  {
    match p.stop
    case AtEof => false
    case AtRestart => true
    case Counted => p.used + NextMarker(after[p.used..]) < |after|
  }

  function Replay(o: Options, rest: seq<Rec>): seq<Out>
    requires ValidOptions(o)
    decreases |rest|
  {
    var k := Seek(o, rest);
    if !k.found then k.outs
    else
      var base, after := rest[k.used - 1], rest[k.used..];
      var p := Pass(o, base, 0, after, o.count);
      k.outs + Passes(o.acts, base, p.shown) +
      if EndsAtMarker(p, after) then
        var n := SegmentEnd(p, after);
        [Restart(after[n - 1])] + Replay(o, after[n..])
      else []
  }

  // ---------- restart markers ----------

  function MarkerIn(r: Rec): seq<Rec> {
    if r.Dummy? then [r] else []
  }

  function Markers(recs: seq<Rec>): seq<Rec> {
    if recs == [] then [] else MarkerIn(recs[0]) + Markers(recs[1..])
  }

  function RestartIn(x: Out): seq<Rec> {
    if x.Restart? then [x.rec] else []
  }

  function Restarts(outs: seq<Out>): seq<Rec> {
    if outs == [] then [] else RestartIn(outs[0]) + Restarts(outs[1..])
  }

  lemma {:induction false} MarkersAppend(a: seq<Rec>, b: seq<Rec>)
    ensures Markers(a + b) == Markers(a) + Markers(b)
    decreases |a|
  {
    hide MarkerIn;
    if a == [] {
      assert a + b == b;
    } else {
      assert (a + b)[0] == a[0] && (a + b)[1..] == a[1..] + b;
      MarkersAppend(a[1..], b);
    }
  }

  lemma {:induction false} RestartsAppend(a: seq<Out>, b: seq<Out>)
    ensures Restarts(a + b) == Restarts(a) + Restarts(b)
    decreases |a|
  {
    hide RestartIn;
    if a == [] {
      assert a + b == b;
    } else {
      assert (a + b)[0] == a[0] && (a + b)[1..] == a[1..] + b;
      RestartsAppend(a[1..], b);
    }
  }

  lemma {:induction false} NoMarkers(recs: seq<Rec>)
    requires AllStats(recs)
    ensures Markers(recs) == []
    decreases |recs|
  {
    if recs != [] { NoMarkers(recs[1..]); }
  }

  lemma {:induction false} NoRestarts(act: nat, prev: Rec, shown: seq<Rec>)
    ensures Restarts(Lines(act, prev, shown)) == []
    decreases |shown|
  {
    if shown != [] { NoRestarts(act, shown[0], shown[1..]); }
  }

  lemma {:induction false} PassesNoRestarts(acts: seq<nat>, base: Rec, shown: seq<Rec>)
    ensures Restarts(Passes(acts, base, shown)) == []
    decreases |acts|
  {
    if acts != [] {
      NoRestarts(acts[0], base, shown);
      var tail: seq<Out> :=
        if shown == [] then [] else [Average(acts[0], base, Last(base, shown), |shown|, Gauges(shown))];
      RestartsAppend(Lines(acts[0], base, shown), tail);
      RestartsAppend(PassOut(acts[0], base, shown), Passes(acts[1..], base, shown));
      PassesNoRestarts(acts[1..], base, shown);
    }
  }

  lemma {:induction false} SeekMarkers(o: Options, rest: seq<Rec>)
    ensures Restarts(Seek(o, rest).outs) == Markers(rest[..Seek(o, rest).used])
    decreases |rest|
  {
    hide Seek, OutOfHours, Restarts, Markers;
    SeekStep(o, rest);
    if rest == [] {
      assert rest[..0] == [];
      NoneOfEither();
    } else {
      OneOfEach(rest[0]);
      if rest[0].Stats? && !OutOfHours(o, rest[0]) {
        assert rest[..1] == [rest[0]];
      } else {
        var k := Seek(o, rest[1..]);
        SeekMarkers(o, rest[1..]);
        RestartsAppend(if rest[0].Dummy? then [Restart(rest[0])] else [], k.outs);
        assert rest[..k.used + 1] == [rest[0]] + rest[1..][..k.used];
        MarkersAppend([rest[0]], rest[1..][..k.used]);
      }
    }
  }

  lemma NoneOfEither()
    ensures Restarts([]) == [] && Markers([]) == []
  {}

  lemma OneOfEach(r: Rec)
    ensures Restarts(if r.Dummy? then [Restart(r)] else []) == Markers([r])
    ensures r.Stats? ==> Markers([r]) == [] && Restarts([]) == []
  {}

  /** The records of one segment contain no marker but the one that ends it. */
  lemma SegmentMarkers(o: Options, base: Rec, after: seq<Rec>)
    requires ValidOptions(o) && base.Stats?
    ensures var p := Pass(o, base, 0, after, o.count); var n := SegmentEnd(p, after);
            if EndsAtMarker(p, after) then n > 0 && after[n - 1].Dummy? && AllStats(after[..n - 1])
            else n == |after| && AllStats(after[..n]) && after[..n] == after
  {
    SegmentShape(Pass(o, base, 0, after, o.count), after);
  }

  lemma SegmentShape(p: PassResult, after: seq<Rec>)
    requires Consumes(p, after)
    ensures var n := SegmentEnd(p, after);
            if EndsAtMarker(p, after) then n > 0 && after[n - 1].Dummy? && AllStats(after[..n - 1])
            else n == |after| && AllStats(after[..n]) && after[..n] == after
  {
    match p.stop
    case Counted =>
      assert AllStats(after[..p.used]);
      SkippedStats(after, p.used);
    case AtEof =>
    case AtRestart =>
  }

  lemma SkippedStats(after: seq<Rec>, used: nat)
    requires used <= |after| && AllStats(after[..used])
    ensures var i := used + NextMarker(after[used..]);
            AllStats(after[..i]) && (i < |after| ==> after[i].Dummy?)
  {
    hide NextMarker;
    var rest := after[used..];
    var i := used + NextMarker(rest);
    forall j | 0 <= j < i ensures after[j].Stats? {
      if j >= used { assert after[j] == rest[j - used]; } else { assert after[..used][j] == after[j]; }
    }
    assert i < |after| ==> rest[i - used] == after[i];
  }

  /** Every restart marker of the file is handed to write_dummy once, in file order. */
  lemma {:induction false} EachRestartOnce(o: Options, rest: seq<Rec>)
    requires ValidOptions(o)
    ensures Restarts(Replay(o, rest)) == Markers(rest)
    decreases |rest|
  {
    hide Pass, Passes, EndsAtMarker, SegmentEnd, Seek, Restarts, Markers, Last;
    var k := Seek(o, rest);
    SeekMarkers(o, rest);
    assert rest == rest[..k.used] + rest[k.used..];
    MarkersAppend(rest[..k.used], rest[k.used..]);
    if k.found {
      var base, after := rest[k.used - 1], rest[k.used..];
      var p := Pass(o, base, 0, after, o.count);
      var passes := Passes(o.acts, base, p.shown);
      PassesNoRestarts(o.acts, base, p.shown);
      RestartsAppend(k.outs, passes);
      SegmentMarkers(o, base, after);
      if EndsAtMarker(p, after) {
        var n := SegmentEnd(p, after);
        EachRestartOnce(o, after[n..]);
        var mark := [Restart(after[n - 1])];
        RestartsAppend(mark, Replay(o, after[n..]));
        RestartsAppend(k.outs + passes, mark + Replay(o, after[n..]));
        SplitAtMarker(after, n);
      } else {
        NoMarkers(after);
        assert k.outs + passes + [] == k.outs + passes;
      }
    } else {
      NoMarkers(rest[k.used..]);
    }
  }

  lemma SplitAtMarker(after: seq<Rec>, n: nat)
    requires 0 < n <= |after| && after[n - 1].Dummy? && AllStats(after[..n - 1])
    ensures Markers(after) == [after[n - 1]] + Markers(after[n..])
    ensures Restarts([Restart(after[n - 1])]) == [after[n - 1]]
  {
    assert after == after[..n - 1] + ([after[n - 1]] + after[n..]);
    MarkersAppend(after[..n - 1], [after[n - 1]] + after[n..]);
    NoMarkers(after[..n - 1]);
    assert ([after[n - 1]] + after[n..])[1..] == after[n..];
  }

  // ---------- averages that are given up ----------

  /** The two clocks of a record: uptime of all processors together, or of the first one (which
      counts only on SMP machines). */
  function Clock(r: Rec, one: bool): uint64
    requires r.Stats?
  {
    if one then r.uptime0 else r.uptime
  }

  /** sar.c: write_stats_avg, the interval of the average line. */
  function AverageInterval(first: Rec, last: Rec, one: bool): nat
    requires first.Stats? && last.Stats?
  {
    Masked(Clock(last, one), Clock(first, one))
  }

  predicate Proper(x: Out, smp: bool) {
    x.Average? && x.first.Stats? && x.last.Stats? ==>
      AverageInterval(x.first, x.last, false) != 0 && (smp ==> AverageInterval(x.first, x.last, true) != 0)
  }

  /** An average is given up exactly if two uptimes that it is over agree in their last 32 bits: those of all
      processors together or, if there are several, those of the first. */
  lemma ProperIff(act: nat, first: Rec, last: Rec, lines: nat, sum: nat, smp: bool)
    requires first.Stats? && last.Stats?
    ensures !Proper(Average(act, first, last, lines, sum), smp) <==>
            || last.uptime % 0x1_0000_0000 == first.uptime % 0x1_0000_0000
            || (smp && last.uptime0 % 0x1_0000_0000 == first.uptime0 % 0x1_0000_0000)
  {
    SameLow(last.uptime, first.uptime);
    SameLow(last.uptime0, first.uptime0);
  }

  lemma SameLow(a: uint64, b: uint64)
    ensures Masked(a, b) == 0 <==> a % 0x1_0000_0000 == b % 0x1_0000_0000
  {}

  /** No average line has a null interval, at which write_stats_avg gives up. */
  predicate AllProper(outs: seq<Out>, smp: bool) {
    forall i :: 0 <= i < |outs| ==> Proper(outs[i], smp)
  }

  lemma {:induction false} LinesProper(act: nat, prev: Rec, shown: seq<Rec>, smp: bool)
    ensures AllProper(Lines(act, prev, shown), smp)
    decreases |shown|
  {
    if shown != [] { LinesProper(act, shown[0], shown[1..], smp); }
  }

  lemma PassProper(act: nat, base: Rec, shown: seq<Rec>, smp: bool)
    ensures PassOut(act, base, shown) ==
            Lines(act, base, shown) +
            if shown == [] then [] else [Average(act, base, Last(base, shown), |shown|, Gauges(shown))]
    ensures AllProper(PassOut(act, base, shown), smp) <==>
            shown == [] || Proper(Average(act, base, Last(base, shown), |shown|, Gauges(shown)), smp)
  {
    hide Proper, Gauges, Last;
    LinesProper(act, base, shown, smp);
    if shown != [] {
      var avg := Average(act, base, Last(base, shown), |shown|, Gauges(shown));
      var all := Lines(act, base, shown) + [avg];
      assert all[|all| - 1] == avg;
    }
  }
}
