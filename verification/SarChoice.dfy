/** Which records sar -f shows, for all options (sar.c: write_stats, handle_curr_act_stats; sa_common.c:
    next_slice, datecmp). */
module SarChoice {
  import opened Bytes
  import opened Slices
  import opened SarPass

  /** The records selected by interval alone. */
  function Chosen(o: Options, base: Rec, last: uint64, recs: seq<Rec>): seq<Rec>
    requires o.interval > 0 && base.Stats? && AllStats(recs)
    decreases |recs|
  {
    if recs == [] then []
    else
      var r := recs[0];
      (if Shown(base.uptime, last, r.uptime, o.procs, o.interval) then [r] else []) +
      Chosen(o, base, r.uptime, recs[1..])
  }

  /** Without -s, -e and a count a pass shows exactly those. */
  lemma {:induction false} PassIsChosen(o: Options, base: Rec, last: uint64, rest: seq<Rec>, n: int)
    requires ValidOptions(o) && base.Stats? && n < 0 && o.start.None? && o.end.None?
    ensures AllStats(rest[..NextMarker(rest)])
    ensures Pass(o, base, last, rest, n).shown == Chosen(o, base, last, rest[..NextMarker(rest)])
    decreases |rest|
  {
    hide Pass;
    PassStep(o, base, last, rest, n);
    if rest != [] && rest[0].Stats? {
      var r, k := rest[0], NextMarker(rest[1..]);
      assert rest[..NextMarker(rest)][1..] == rest[1..][..k] && rest[..NextMarker(rest)][0] == r;
      PassIsChosen(o, base, r.uptime, rest[1..], n);
    }
  }

  /** What clocks and the options -s and -e give. */
  predicate Times(o: Options, recs: seq<Rec>) {
    && (o.start.Some? ==> ValidTod(o.start.value)) && (o.end.Some? ==> ValidTod(o.end.value))
    && forall i :: 0 <= i < |recs| ==> ValidTod(recs[i].tod)
  }

  predicate BeforeStart(o: Options, r: Rec) {
    o.start.Some? && SecondOfDay(r.tod) < SecondOfDay(o.start.value)
  }

  predicate AfterEnd(o: Options, r: Rec) {
    o.end.Some? && SecondOfDay(r.tod) > SecondOfDay(o.end.value)
  }

  /** The records that are not before -s. */
  function FromStart(o: Options, recs: seq<Rec>): seq<Rec> {
    if recs == [] then [] else (if BeforeStart(o, recs[0]) then [] else [recs[0]]) + FromStart(o, recs[1..])
  }

  /** The records that come before the first one later than -e. */
  function UpToEnd(o: Options, recs: seq<Rec>): seq<Rec> {
    if recs == [] || AfterEnd(o, recs[0]) then [] else [recs[0]] + UpToEnd(o, recs[1..])
  }

  /** The first n of them, or all if n is negative. */
  function AtMost(n: int, recs: seq<Rec>): seq<Rec> {
    if 0 <= n < |recs| then recs[..n] else recs
  }

  /** The records of a boot segment that are selected by interval and not before -s. */
  function Wanted(o: Options, base: Rec, last: uint64, rest: seq<Rec>): seq<Rec>
    requires o.interval > 0 && base.Stats?
  {
    FromStart(o, Chosen(o, base, last, rest[..NextMarker(rest)]))
  }

  /** Of the records wanted a pass shows those before the first one that is later than -e, and no more
      than the count says. It is cut short exactly if there is such a one or the count is reached. */
  lemma {:induction false} PassShows(o: Options, base: Rec, last: uint64, rest: seq<Rec>, n: int)
    requires ValidOptions(o) && base.Stats? && n != 0 && Times(o, rest)
    ensures var p, wanted := Pass(o, base, last, rest, n), Wanted(o, base, last, rest);
            && p.shown == AtMost(n, UpToEnd(o, wanted))
            && (p.stop.Counted? <==> UpToEnd(o, wanted) != wanted || 0 < n <= |wanted|)
    decreases |rest|
  {
    hide Pass, Judge, UpToEnd, Wanted, AtMost;
    PassStep(o, base, last, rest, n);
    WantedStep(o, base, last, rest);
    if rest != [] && rest[0].Stats? {
      var r, v := rest[0], Judge(o, base, last, rest[0]);
      JudgeIs(o, base, last, r);
      var later := Wanted(o, base, r.uptime, rest[1..]);
      var left := if v == Show && n > 0 then n - 1 else n;
      UpToEndStep(o, r, later);
      AtMostStep(n, r, UpToEnd(o, later));
      assert [] + later == later;
      UpToEndShorter(o, later);
      if v != Late && left != 0 { PassShows(o, base, r.uptime, rest[1..], left); }
    } else {
      UpToEndNone(o, n);
    }
  }

  lemma JudgeIs(o: Options, base: Rec, last: uint64, r: Rec)
    requires ValidOptions(o) && base.Stats? && r.Stats? && Times(o, [r])
    ensures var v := Judge(o, base, last, r);
            && (v == Skip <==> !Shown(base.uptime, last, r.uptime, o.procs, o.interval) || BeforeStart(o, r))
            && (v == Late ==> AfterEnd(o, r)) && (v == Show ==> !AfterEnd(o, r))
  {
    hide Shown, DateCmp;
    assert ValidTod([r][0].tod);
    if o.start.Some? { DateCmpOrders(r.tod, o.start.value); }
    if o.end.Some? { DateCmpOrders(r.tod, o.end.value); }
  }

  lemma WantedStep(o: Options, base: Rec, last: uint64, rest: seq<Rec>)
    requires ValidOptions(o) && base.Stats?
    ensures rest == [] || rest[0].Dummy? ==> Wanted(o, base, last, rest) == []
    ensures rest != [] && rest[0].Stats? ==>
              var r := rest[0];
              var mine := Shown(base.uptime, last, r.uptime, o.procs, o.interval) && !BeforeStart(o, r);
              Wanted(o, base, last, rest) == (if mine then [r] else []) + Wanted(o, base, r.uptime, rest[1..])
  {
    hide Shown, BeforeStart;
    if rest != [] && rest[0].Stats? {
      var recs, r := rest[..NextMarker(rest)], rest[0];
      assert recs[1..] == rest[1..][..NextMarker(rest[1..])] && recs[0] == r;
      var more := Chosen(o, base, r.uptime, recs[1..]);
      assert ([r] + more)[1..] == more && [] + more == more && [] + FromStart(o, more) == FromStart(o, more);
    }
  }

  lemma UpToEndStep(o: Options, r: Rec, recs: seq<Rec>)
    ensures UpToEnd(o, [r] + recs) == if AfterEnd(o, r) then [] else [r] + UpToEnd(o, recs)
    ensures UpToEnd(o, [r] + recs) == [r] + recs <==> !AfterEnd(o, r) && UpToEnd(o, recs) == recs
  {
    assert ([r] + recs)[1..] == recs && ([r] + UpToEnd(o, recs))[1..] == UpToEnd(o, recs);
  }

  lemma AtMostStep(n: int, r: Rec, recs: seq<Rec>)
    ensures n > 0 ==> AtMost(n, [r] + recs) == [r] + AtMost(n - 1, recs)
    ensures n < 0 ==> AtMost(n, [r] + recs) == [r] + AtMost(n, recs)
    ensures AtMost(0, recs) == [] && AtMost(n, []) == []
  {}

  lemma UpToEndNone(o: Options, n: int)
    ensures UpToEnd(o, []) == [] && AtMost(n, []) == []
  {}

  lemma {:induction false} UpToEndShorter(o: Options, recs: seq<Rec>)
    ensures |UpToEnd(o, recs)| <= |recs|
    decreases |recs|
  {
    if recs != [] { UpToEndShorter(o, recs[1..]); }
  }

  /** A segment ends with its marker, or with the file, wherever the passes over it stop. */
  lemma SegmentIs(o: Options, base: Rec, after: seq<Rec>)
    requires ValidOptions(o) && base.Stats?
    ensures var p, i := Pass(o, base, 0, after, o.count), NextMarker(after);
            && (EndsAtMarker(p, after) <==> i < |after|)
            && SegmentEnd(p, after) == if i < |after| then i + 1 else i
  {
    hide Pass, NextMarker, SegmentEnd, EndsAtMarker;
    SegmentMarkers(o, base, after);
    var p := Pass(o, base, 0, after, o.count);
    var n, i := SegmentEnd(p, after), NextMarker(after);
    if EndsAtMarker(p, after) {
      assert forall j :: 0 <= j < n - 1 ==> after[..n - 1][j] == after[j];
    } else {
      assert forall j :: 0 <= j < n ==> after[..n][j] == after[j];
    }
  }

  /** A record of statistics from -s on and before -e. */
  predicate InHours(o: Options, r: Rec) {
    r.Stats? && !BeforeStart(o, r) && (o.end.Some? ==> SecondOfDay(r.tod) < SecondOfDay(o.end.value))
  }

  /** The base is the first record in hours; there is none exactly if none is found. */
  lemma {:induction false} SeekFinds(o: Options, rest: seq<Rec>)
    requires Times(o, rest)
    ensures var k := Seek(o, rest);
            && (k.found ==> k.used > 0 && InHours(o, rest[k.used - 1]))
            && forall i :: 0 <= i < (if k.found then k.used - 1 else |rest|) ==> !InHours(o, rest[i])
    decreases |rest|
  {
    hide DateCmp, ValidTod, SecondOfDay;
    if rest != [] {
      assert ValidTod(rest[0].tod);
      if o.start.Some? { DateCmpOrders(rest[0].tod, o.start.value); }
      if o.end.Some? { DateCmpOrders(rest[0].tod, o.end.value); }
      SeekFinds(o, rest[1..]);
      var k := Seek(o, rest[1..]);
      forall i | 1 <= i < (if k.found then k.used else |rest|) ensures !InHours(o, rest[i]) {
        assert rest[i] == rest[1..][i - 1];
      }
    }
  }

  /** The whole report: what is printed for the part of the file up to the next restart mark after the
      first record in hours, that mark, and the same again for what comes after it. */
  lemma ReplayIs(o: Options, rest: seq<Rec>, b: nat)
    requires ValidOptions(o) && Times(o, rest) && b < |rest| && InHours(o, rest[b])
    requires forall i :: 0 <= i < b ==> !InHours(o, rest[i])
    ensures var base, after := rest[b], rest[b + 1..];
            var shown := AtMost(o.count, UpToEnd(o, Wanted(o, base, 0, after)));
            var i := NextMarker(after);
            Replay(o, rest) ==
            AsRestarts(Markers(rest[..b])) + Passes(o.acts, base, shown) +
            if i < |after| then [Restart(after[i])] + Replay(o, after[i + 1..]) else []
  {
    hide Pass, Seek, NextMarker, Wanted, Passes, InHours, AtMost, UpToEnd, EndsAtMarker, SegmentEnd, Times, Markers;
    var k, base, after := Seek(o, rest), rest[b], rest[b + 1..];
    SeekFinds(o, rest);
    SeekMarkers(o, rest);
    SeekOuts(o, rest);
    InHoursStats(o, base);
    assert k.used == b + 1;
    assert rest[..b + 1] == rest[..b] + [base];
    MarkersAppend(rest[..b], [base]);
    OneOfEach(base);
    assert Markers(rest[..b]) + [] == Markers(rest[..b]);
    TimesTail(o, rest, b + 1);
    PassShows(o, base, 0, after, o.count);
    SegmentIs(o, base, after);
  }

  lemma ReplayNone(o: Options, rest: seq<Rec>)
    requires ValidOptions(o) && Times(o, rest) && forall i :: 0 <= i < |rest| ==> !InHours(o, rest[i])
    ensures Replay(o, rest) == AsRestarts(Markers(rest))
  {
    hide Pass, Seek, Passes, InHours, Times, Markers;
    SeekFinds(o, rest);
    SeekMarkers(o, rest);
    SeekOuts(o, rest);
    assert rest[..|rest|] == rest;
  }

  lemma InHoursStats(o: Options, r: Rec)
    requires InHours(o, r)
    ensures r.Stats?
  {}

  lemma TimesTail(o: Options, rest: seq<Rec>, n: nat)
    requires Times(o, rest) && n <= |rest|
    ensures Times(o, rest[n..])
  {}

  function AsRestarts(marks: seq<Rec>): seq<Out> {
    seq(|marks|, i requires 0 <= i < |marks| => Restart(marks[i]))
  }

  lemma {:induction false} SeekOuts(o: Options, rest: seq<Rec>)
    ensures Seek(o, rest).outs == AsRestarts(Restarts(Seek(o, rest).outs))
    decreases |rest|
  {
    hide OutOfHours;
    if rest != [] && !(rest[0].Stats? && !OutOfHours(o, rest[0])) {
      SeekOuts(o, rest[1..]);
      var k := Seek(o, rest[1..]);
      if rest[0].Dummy? {
        RestartsAppend([Restart(rest[0])], k.outs);
        OneOfEach(rest[0]);
      } else {
        assert [] + k.outs == k.outs;
      }
    }
  }

  function UptimeBefore(last: uint64, recs: seq<Rec>, k: nat): uint64
    requires k < |recs| && AllStats(recs)
  {
    if k == 0 then last else recs[k - 1].uptime
  }

  /** Where a record is in what is shown, if it is. */
  lemma {:induction false} ChosenAt(o: Options, base: Rec, last: uint64, recs: seq<Rec>, k: nat)
    requires o.interval > 0 && base.Stats? && AllStats(recs) && k < |recs|
    ensures var mine := Shown(base.uptime, UptimeBefore(last, recs, k), recs[k].uptime, o.procs, o.interval);
            Chosen(o, base, last, recs) ==
            Chosen(o, base, last, recs[..k]) + (if mine then [recs[k]] else []) +
            Chosen(o, base, recs[k].uptime, recs[k + 1..])
    decreases k
  {
    hide Shown;
    if k == 0 {
      assert recs[..0] == [];
      assert [] + (if Shown(base.uptime, last, recs[0].uptime, o.procs, o.interval) then [recs[0]] else []) ==
             (if Shown(base.uptime, last, recs[0].uptime, o.procs, o.interval) then [recs[0]] else []);
    } else {
      ChosenAt(o, base, recs[0].uptime, recs[1..], k - 1);
      assert recs[1..][k - 1] == recs[k] && recs[1..][k..] == recs[k + 1..];
      assert recs[..k][1..] == recs[1..][..k - 1] && recs[..k][0] == recs[0];
      assert UptimeBefore(recs[0].uptime, recs[1..], k - 1) == UptimeBefore(last, recs, k);
    }
  }

  function Uptimes(recs: seq<Rec>): seq<uint64>
    requires AllStats(recs)
  {
    seq(|recs|, i requires 0 <= i < |recs| => recs[i].uptime)
  }

  /** Records that come at a steady pace, and a multiple of the interval in the time they cover. */
  predicate Paced(o: Options, base: Rec, seg: seq<Rec>, width: nat, m: int)
    requires o.interval > 0
  {
    && base.Stats? && AllStats(seg) && seg != [] && width >= 1 && Multiple(m, o.interval)
    && var ups := Uptimes(seg);
       && Pace(base.uptime, ups, o.procs, width)
       && InSpan(Entry(base.uptime, ups[0], o.procs), Entry(base.uptime, ups[|ups| - 1], o.procs), width, m)
  }

  /** Records whose uptimes are so many whole seconds apart do, from one half of a step after the base on. */
  lemma RegularPaced(o: Options, base: Rec, seg: seq<Rec>, width: nat, m: int)
    requires o.interval > 0 && base.Stats? && AllStats(seg) && seg != [] && width >= 1 && Multiple(m, o.interval)
    requires Regular(base.uptime, Uptimes(seg), o.procs, width)
    requires width - width / 2 <= m < |seg| * width + width / 2 + width % 2
    ensures Paced(o, base, seg, width, m)
  {
    hide Entry, Pace, Multiple, Regular;
    RegularPace(base.uptime, Uptimes(seg), o.procs, width);
  }

  /** That the window of a record has the moment m. */
  predicate HasMoment(o: Options, base: Rec, r: Rec, width: nat, m: int) {
    base.Stats? && r.Stats? && InWindow(Entry(base.uptime, r.uptime, o.procs), width, m)
  }

  lemma SegmentCover(o: Options, base: Rec, seg: seq<Rec>, width: nat, m: int) returns (k: nat)
    requires o.interval > 0 && Paced(o, base, seg, width, m)
    ensures k < |seg| && Shown(base.uptime, UptimeBefore(0, seg, k), seg[k].uptime, o.procs, o.interval)
    ensures HasMoment(o, base, seg[k], width, m)
    ensures forall j :: 0 <= j < |seg| && j != k ==> !HasMoment(o, base, seg[j], width, m)
  {
    hide Entry, Width, Multiple, Shown, Pace, InSpan, InWindow;
    var ups := Uptimes(seg);
    k := PassCover(base.uptime, ups, o.procs, width, o.interval, m);
    assert UptimeBefore(0, seg, k) == Before(ups, k);
    forall j | 0 <= j < |seg| && j != k ensures !HasMoment(o, base, seg[j], width, m) {
      assert ups[j] == seg[j].uptime;
    }
  }

  /** A pass over a boot segment whose records come at a steady pace, without -s, -e and a count: for each
      multiple of the interval in the time they cover it shows exactly one record whose window has it. */
  lemma PassCovers(o: Options, base: Rec, rest: seq<Rec>, width: nat, m: int)
    returns (k: nat, front: seq<Rec>, back: seq<Rec>)
    requires ValidOptions(o) && base.Stats? && o.count < 0 && o.start.None? && o.end.None?
    requires Paced(o, base, rest[..NextMarker(rest)], width, m)
    ensures k < NextMarker(rest) && HasMoment(o, base, rest[k], width, m)
    ensures Pass(o, base, 0, rest, o.count).shown == front + [rest[k]] + back
    ensures forall j :: 0 <= j < NextMarker(rest) && j != k ==> !HasMoment(o, base, rest[j], width, m)
  {
    hide Pass, NextMarker, Shown, Paced, HasMoment, Chosen;
    var seg := rest[..NextMarker(rest)];
    k := SegmentCover(o, base, seg, width, m);
    PassIsChosen(o, base, 0, rest, o.count);
    ChosenAt(o, base, 0, seg, k);
    front, back := Chosen(o, base, 0, seg[..k]), Chosen(o, base, seg[k].uptime, seg[k + 1..]);
    forall j | 0 <= j < |seg| && j != k ensures !HasMoment(o, base, rest[j], width, m) {
      assert seg[j] == rest[j];
    }
  }
}
