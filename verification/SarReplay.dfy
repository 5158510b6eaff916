/** sar -f as a program: one pass over a boot segment for each activity, with two buffers taking turns and
    a third one keeping the first record (sar.c: read_stats_from_file, handle_curr_act_stats,
    write_stats, write_stats_avg). */
module SarReplay {
  import opened Bytes
  import opened Slices
  import opened SarPass

  /** From `start` on, `out` is `full` up to just before its first average with a null interval. */
  ghost predicate Halts(start: nat, out: seq<Out>, full: seq<Out>, smp: bool) {
    && start <= |out| < |full| && out == full[..|out|]
    && (forall i :: start <= i < |out| ==> Proper(full[i], smp))
    && !Proper(full[|out|], smp)
  }

  /** A pass that has shown `shown` and used `used` records still has `left` before it. */
  ghost predicate Remaining(want: PassResult, used: int, shown: seq<Rec>, left: PassResult) {
    want.shown == shown + left.shown && want.used == used + left.used && want.stop == left.stop
  }

  lemma Advance(o: Options, base: Rec, last: uint64, rest: seq<Rec>, n: int, want: PassResult, used: int,
                shown: seq<Rec>)
    requires ValidOptions(o) && base.Stats? && n != 0 && used >= 0
    requires Remaining(want, used, shown, Pass(o, base, last, rest, n))
    ensures rest == [] ==> want == PassResult(shown, used, AtEof)
    ensures rest != [] && rest[0].Dummy? ==> want == PassResult(shown, used + 1, AtRestart)
    ensures rest != [] && rest[0].Stats? ==>
              var v := Judge(o, base, last, rest[0]);
              var left := if v == Show && n > 0 then n - 1 else n;
              var shown' := if v == Show then shown + [rest[0]] else shown;
              if v == Late || left == 0 then want == PassResult(shown', used + 1, Counted)
              else Remaining(want, used + 1, shown', Pass(o, base, rest[0].uptime, rest[1..], left))
  {
    hide Judge, Pass;
    PassStep(o, base, last, rest, n);
    assert shown + [] == shown;
  }

  lemma NoLines(act: nat, base: Rec)
    ensures Lines(act, base, []) == [] && Gauges([]) == 0
  {}

  lemma GaugesAppend(shown: seq<Rec>, r: Rec)
    requires r.Stats?
    ensures Gauges(shown + [r]) == Gauges(shown) + r.gauge
  {
    assert (shown + [r])[..|shown|] == shown;
  }

  class Sar {
    const recs: seq<Rec>
    const o: Options
    const slicer: Slicer
    const buf: array<Rec>   // file_stats[0..2]
    var pos: nat
    var curr: nat
    var cnt: int
    var eosaf: bool
    var reset: bool
    var asumCount: nat
    var asumGauge: nat
    var out: seq<Out>

    ghost predicate Valid()
      reads this
    {
      buf.Length == 3 && curr < 2 && pos <= |recs| && ValidOptions(o)
    }

    constructor (recs: seq<Rec>, o: Options)
      requires ValidOptions(o)
      ensures this.recs == recs && this.o == o && Valid() && fresh(slicer) && fresh(buf)
      ensures pos == 0 && out == [] && asumCount == 0 && asumGauge == 0
    {
      this.recs, this.o := recs, o;
      slicer := new Slicer();
      buf := new Rec[3](_ => Stats(0, 0, Tod(0, 0, 0), 0, 0));
      pos, curr, cnt, eosaf, reset, asumCount, asumGauge, out := 0, 1, 1, true, false, 0, 0, [];
    }

    /** Uptime that next_slice will measure from. */
    ghost function LastSeen(): uint64
      reads this, slicer
    {
      if reset then 0 else slicer.lastUptime
    }

    /** sar.c: write_stats for a record of a file. */
    method WriteStats(act: nat) returns (next: bool)
      requires Valid() && buf[2].Stats? && buf[curr].Stats?
      modifies slicer, this`cnt, this`asumCount, this`asumGauge, this`out
      ensures slicer.lastUptime == buf[curr].uptime
      ensures var v := Judge(o, buf[2], old(LastSeen()), buf[curr]);
              && next == (v == Show)
              && cnt == (if v == Late then 0 else old(cnt))
              && out == old(out) + (if next then [Line(act, buf[1 - curr], buf[curr])] else [])
              && asumCount == old(asumCount) + (if next then 1 else 0)
              && asumGauge == old(asumGauge) + (if next then buf[curr].gauge else 0)
    {
      hide Seconds, Selected;
      next := slicer.NextSlice(buf[2].uptime, buf[curr].uptime, o.procs, reset, o.interval);
      if !next {
        return;
      }
      if o.start.Some? && DateCmp(buf[curr].tod, o.start.value) < 0 {
        return false;
      }
      if o.end.Some? && DateCmp(buf[curr].tod, o.end.value) > 0 {
        cnt := 0;
        return false;
      }
      asumCount, asumGauge := asumCount + 1, asumGauge + buf[curr].gauge;
      out := out + [Line(act, buf[1 - curr], buf[curr])];
    }

    /** sar.c: write_stats_avg; false if it exits because of a null interval. */
    method WriteStatsAvg(act: nat, which: nat) returns (ok: bool)
      requires Valid() && which < 2 && buf[2].Stats? && buf[which].Stats?
      modifies this`asumCount, this`asumGauge, this`out
      ensures var line := Average(act, buf[2], buf[which], old(asumCount), old(asumGauge));
              && ok == Proper(line, o.procs > 0)
              && out == old(out) + if ok then [line] else []
      ensures ok ==> asumCount == 0 && asumGauge == 0
    {
      ok := AverageInterval(buf[2], buf[which], false) != 0 &&
            (o.procs > 0 ==> AverageInterval(buf[2], buf[which], true) != 0);
      if ok {
        out := out + [Average(act, buf[2], buf[which], asumCount, asumGauge)];
        asumCount, asumGauge := 0, 0;
      }
    }

    /** What a pass starting at `fpos` has to show. */
    ghost function Expected(fpos: nat): PassResult
      requires Valid() && fpos <= |recs| && buf[2].Stats?
      reads this, buf
    {
      Pass(o, buf[2], 0, recs[fpos..], o.count)
    }

    /** Within a pass: the buffer not being read into holds the last shown record, or the base. */
    ghost predicate Midway(fpos: nat, act: nat, base: Rec, shown: seq<Rec>, out0: seq<Out>)
      reads this, buf
    {
      && Valid() && fpos <= pos
      && base.Stats? && buf[2] == base && buf[1 - curr] == Last(base, shown) && AllStats(shown)
      && out == out0 + Lines(act, base, shown)
      && asumCount == |shown| && asumGauge == Gauges(shown)
    }

    ghost predicate Ongoing(fpos: nat, base: Rec, shown: seq<Rec>, want: PassResult)
      requires Valid() && base.Stats?
      reads this, slicer
    {
      cnt != 0 && Remaining(want, pos - fpos, shown, Pass(o, base, LastSeen(), recs[pos..], cnt))
    }

    ghost predicate Over(fpos: nat, shown: seq<Rec>, want: PassResult)
      requires Valid()
      reads this, buf
    {
      && shown == want.shown && pos == fpos + want.used
      && (eosaf <==> want.stop.AtEof?)
      && (cnt == 0 <==> want.stop.Counted?)
      && (want.stop.AtRestart? ==> pos > 0 && buf[curr] == recs[pos - 1])
    }

    /** One turn of the loop of handle_curr_act_stats. */
    method ReadNext(act: nat, ghost fpos: nat, ghost base: Rec, ghost shown: seq<Rec>, ghost want: PassResult,
                    ghost out0: seq<Out>) returns (more: bool, next: bool, ghost shown': seq<Rec>)
      requires Midway(fpos, act, base, shown, out0) && Ongoing(fpos, base, shown, want)
      modifies slicer, buf, this`pos, this`curr, this`cnt, this`eosaf, this`reset, this`asumCount, this`asumGauge,
               this`out
      ensures Midway(fpos, act, base, shown', out0)
      ensures if more then Ongoing(fpos, base, shown', want) && pos > old(pos) else Over(fpos, shown', want)
      ensures |shown'| == |shown| + if next then 1 else 0
    {
      hide Judge, Pass, Lines, Gauges, Remaining;
      ghost var rest := recs[pos..];
      Advance(o, base, LastSeen(), rest, cnt, want, pos - fpos, shown);
      more, next, shown' := false, false, shown;
      eosaf := pos == |recs|;
      if !eosaf {
        buf[curr] := recs[pos];
        pos := pos + 1;
        var r := buf[curr];
        assert rest[0] == r && rest[1..] == recs[pos..];
        if r.Stats? {
          next := WriteStats(act);
          reset := false;
          if next {
            LinesAppend(act, base, shown, r);
            GaugesAppend(shown, r);
            shown' := shown + [r];
            if cnt > 0 { cnt := cnt - 1; }
            curr := 1 - curr;
          }
          more := cnt != 0;
        }
      }
    }

    /** The loop of handle_curr_act_stats, after the baseline has been put in the other buffer. */
    method RunPass(fpos: nat, act: nat) returns (davg: nat)
      requires Valid() && fpos <= |recs| && buf[2].Stats? && reset && asumCount == 0 && asumGauge == 0
      modifies slicer, buf, this`pos, this`curr, this`cnt, this`eosaf, this`reset, this`asumCount, this`asumGauge,
               this`out
      ensures var p := old(Expected(fpos));
              Midway(fpos, act, old(buf[2]), p.shown, old(out)) && Over(fpos, p.shown, p) && davg == |p.shown|
    {
      hide Judge, Pass, Lines, Gauges;
      pos := fpos;
      buf[1 - curr] := buf[2];
      cnt := o.count;
      davg := 0;
      ghost var base, shown, want := buf[2], [], Expected(fpos);
      NoLines(act, base);
      var more := true;
      assert [] + want.shown == want.shown;
      while more
        invariant Midway(fpos, act, base, shown, old(out)) && davg == |shown|
        invariant if more then Ongoing(fpos, base, shown, want) else Over(fpos, shown, want)
        decreases |recs| - pos, more
      {
        var next;
        more, next, shown := ReadNext(act, fpos, base, shown, want, old(out));
        if next { davg := davg + 1; }
      }
    }

    /** sar.c: handle_curr_act_stats. Whatever an earlier pass has left in the two buffers, in the
        parity of `curr` and in the static variable of next_slice, this pass shows exactly the
        expected records, each against the one shown before it. */
    method HandleCurrActStats(fpos: nat, act: nat) returns (ok: bool)
      requires Valid() && fpos <= |recs| && buf[2].Stats? && reset && asumCount == 0 && asumGauge == 0
      modifies slicer, buf, this`pos, this`curr, this`cnt, this`eosaf, this`reset, this`asumCount, this`asumGauge,
               this`out
      ensures Valid() && buf[2] == old(buf[2])
      ensures var want := PassOut(act, buf[2], old(Expected(fpos)).shown);
              && ok == AllProper(want, o.procs > 0)
              && (ok ==> out == old(out) + want && asumCount == 0 && asumGauge == 0 && reset)
              && (!ok ==> Halts(|old(out)|, out, old(out) + want, o.procs > 0))
      ensures Over(fpos, old(Expected(fpos)).shown, old(Expected(fpos)))
    {
      hide Pass, PassOut, Lines, Gauges, AllProper, Proper;
      ghost var shown := Expected(fpos).shown;
      PassProper(act, buf[2], shown, o.procs > 0);
      NoLines(act, buf[2]);
      var davg := RunPass(fpos, act);
      ok := true;
      if davg > 0 {
        ok := WriteStatsAvg(act, 1 - curr);
        if !ok { HaltsAtAverage(old(out), act, buf[2], shown, o.procs > 0); }
      }
      reset := true;
    }

    /** The inner loop of read_stats_from_file: find a first record for the averages. */
    method FindBase() returns (found: bool)
      requires Valid()
      modifies buf, this`pos, this`out
      ensures Valid()
      ensures var k := Seek(o, old(recs[pos..]));
              found == k.found && pos == old(pos) + k.used && out == old(out) + k.outs
      ensures found ==> pos > 0 && buf[0] == recs[pos - 1]
    {
      hide OutOfHours, Seek;
      found := false;
      ghost var all := Seek(o, recs[pos..]);
      assert out + all.outs == old(out) + all.outs;
      while !found
        invariant Valid() && old(pos) <= pos
        invariant !found ==> var k := Seek(o, recs[pos..]);
                             && out + k.outs == old(out) + all.outs
                             && pos + k.used == old(pos) + all.used && k.found == all.found
        invariant found ==> out == old(out) + all.outs && pos == old(pos) + all.used && all.found
        invariant found ==> pos > 0 && buf[0] == recs[pos - 1]
        decreases |recs| - pos, !found
      {
        ghost var rest := recs[pos..];
        SeekStep(o, rest);
        if pos == |recs| {
          return;
        }
        buf[0] := recs[pos];
        pos := pos + 1;
        assert rest[0] == buf[0] && rest[1..] == recs[pos..];
        if buf[0].Dummy? {
          out := out + [Restart(buf[0])];
        }
        found := buf[0].Stats? && !(o.start.Some? && DateCmp(buf[0].tod, o.start.value) < 0) &&
                 !(o.end.Some? && DateCmp(buf[0].tod, o.end.value) >= 0);
        Hours(o, buf[0]);
      }
    }

    /** The passes over one segment, one for each activity. */
    method AllPasses(fpos: nat) returns (ok: bool)
      requires Valid() && fpos <= |recs| && buf[2].Stats? && reset && asumCount == 0 && asumGauge == 0
      modifies slicer, buf, this`pos, this`curr, this`cnt, this`eosaf, this`reset, this`asumCount, this`asumGauge,
               this`out
      ensures Valid()
      ensures var want := Passes(o.acts, old(buf[2]), old(Expected(fpos)).shown);
              && ok == AllProper(want, o.procs > 0)
              && (ok ==> out == old(out) + want && asumCount == 0 && asumGauge == 0)
              && (!ok ==> Halts(|old(out)|, out, old(out) + want, o.procs > 0))
      ensures ok ==> Over(fpos, old(Expected(fpos)).shown, old(Expected(fpos)))
    {
      hide Pass, PassOut, AllProper;
      ok := true;
      ghost var base, want := buf[2], Expected(fpos);
      ghost var trace := Passes(o.acts, base, want.shown);
      assert o.acts[0..] == o.acts;
      NothingImproper(o.procs > 0);
      assert out[|old(out)|..] == [];
      var i := 0;
      while i < |o.acts|
        invariant 0 <= i <= |o.acts| && Valid() && buf[2] == base && reset && asumCount == 0 && asumGauge == 0
        invariant old(out) <= out && AllProper(out[|old(out)|..], o.procs > 0)
        invariant out + Passes(o.acts[i..], base, want.shown) == old(out) + trace
        invariant i > 0 ==> Over(fpos, want.shown, want)
      {
        ghost var before, rest := out, Passes(o.acts[i + 1..], base, want.shown);
        assert o.acts[i..][0] == o.acts[i] && o.acts[i..][1..] == o.acts[i + 1..];
        ghost var mine := PassOut(o.acts[i], base, want.shown);
        assert before + (mine + rest) == old(out) + trace;
        Strip(old(out), before, mine + rest, trace);
        ProperParts(before[|old(out)|..], mine, rest, o.procs > 0);
        assert fpos <= |recs| && Expected(fpos) == want;
        ok := HandleCurrActStats(fpos, o.acts[i]);
        if !ok {
          HaltsWithin(old(out), before, out, mine, rest, trace, o.procs > 0);
          return;
        }
        assert out == before + mine;
        assert out[|old(out)|..] == before[|old(out)|..] + mine;
        assert before + (mine + rest) == before + mine + rest;
        i := i + 1;
      }
      assert Passes(o.acts[i..], base, want.shown) == [];
      assert out == old(out) + trace;
      assert out[|old(out)|..] == trace;
    }

    /** "Go to next Linux restart, if possible". */
    method SkipToRestart()
      requires Valid()
      modifies buf, this`pos, this`eosaf
      ensures Valid()
      ensures var i := old(pos) + NextMarker(old(recs[pos..]));
              && (eosaf <==> i == |recs|)
              && pos == (if eosaf then i else i + 1)
              && (!eosaf ==> buf[curr] == recs[i])
    {
      ghost var goal := pos + NextMarker(recs[pos..]);
      eosaf := false;
      var more := true;
      while more
        invariant Valid() && (more ==> !eosaf && pos + NextMarker(recs[pos..]) == goal)
        invariant !more ==> (eosaf <==> goal == |recs|) && pos == (if eosaf then goal else goal + 1)
        invariant !more && !eosaf ==> buf[curr] == recs[goal]
        decreases |recs| - pos, more
      {
        ghost var rest := recs[pos..];
        eosaf := pos == |recs|;
        if !eosaf {
          buf[curr] := recs[pos];
          pos := pos + 1;
          assert rest[0] == buf[curr] && rest[1..] == recs[pos..];
        }
        more := !eosaf && !buf[curr].Dummy?;
      }
    }

    /** After the passes: on to the next restart, which is printed. */
    method EndSegment(ghost fpos: nat, ghost base: Rec)
      requires Valid() && fpos <= |recs| && base.Stats?
      requires Over(fpos, Pass(o, base, 0, recs[fpos..], o.count).shown, Pass(o, base, 0, recs[fpos..], o.count))
      modifies buf, this`pos, this`eosaf, this`out
      ensures Valid()
      ensures var after := recs[fpos..]; var p := Pass(o, base, 0, after, o.count); var n := SegmentEnd(p, after);
              && pos == fpos + n
              && (eosaf <==> !EndsAtMarker(p, after))
              && (!eosaf ==> n > 0 && out == old(out) + [Restart(after[n - 1])])
              && (eosaf ==> out == old(out))
    {
      hide Pass, NextMarker;
      ghost var after := recs[fpos..];
      ghost var p := Pass(o, base, 0, after, o.count);
      SegmentMarkers(o, base, after);
      if cnt == 0 {
        assert recs[pos..] == after[p.used..];
        SkipToRestart();
      }
      if !eosaf && buf[curr].Dummy? {
        out := out + [Restart(buf[curr])];
      }
    }

    /** One turn of the outer loop of read_stats_from_file: a segment between two restarts. */
    method ReadSegment() returns (ok: bool, more: bool)
      requires Valid() && asumCount == 0 && asumGauge == 0
      modifies slicer, buf, this`pos, this`curr, this`cnt, this`eosaf, this`reset, this`asumCount, this`asumGauge,
               this`out
      ensures Valid()
      ensures ok ==> pos >= old(pos)
      ensures more ==> ok && pos > old(pos) && asumCount == 0 && asumGauge == 0
      ensures var all := Replay(o, old(recs[pos..]));
              && old(out) <= out
              && (ok && !more ==> out == old(out) + all && AllProper(all, o.procs > 0))
              && (more ==> out + Replay(o, recs[pos..]) == old(out) + all && AllProper(out[|old(out)|..], o.procs > 0))
              && (!ok ==> Halts(|old(out)|, out, old(out) + all, o.procs > 0) && !AllProper(all, o.procs > 0))
    {
      hide Seek, Pass, Passes, AllProper, EndsAtMarker, SegmentEnd, Replay;
      ghost var rest := recs[pos..];
      ghost var k := Seek(o, rest);
      ok, more := true, false;
      SeekProper(o, rest);
      SegmentReplay(o, rest);
      var found := FindBase();
      if !found {
        return;
      }
      buf[2] := buf[0];
      reset := true;
      var fpos := pos;
      ghost var base, after := buf[2], rest[k.used..];
      assert after == recs[fpos..];
      ghost var p := Pass(o, base, 0, after, o.count);
      ghost var passes := Passes(o.acts, base, p.shown);
      ghost var tail := TailOf(o, p, after);
      ProperParts(k.outs, passes, tail, o.procs > 0);
      ghost var start := out;
      ok := AllPasses(fpos);
      Parts(old(out), k.outs, passes, tail);
      if !ok {
        Behind(old(out), k.outs);
        Regrouped(old(out), k.outs, passes, tail);
        HaltsWithin(old(out), start, out, passes, tail, k.outs + (passes + tail), o.procs > 0);
        return;
      }
      EndSegment(fpos, base);
      more := !eosaf;
      NothingImproper(o.procs > 0);
      if more {
        ghost var n := SegmentEnd(p, after);
        assert recs[pos..] == after[n..];
        ghost var mark := [Restart(after[n - 1])];
        MarkProper(mark[0], o.procs > 0);
        ProperParts(k.outs, passes, mark, o.procs > 0);
        Parts(old(out), k.outs, passes, mark);
        Joined(old(out), k.outs, passes, mark, Replay(o, after[n..]));
      }
    }

    /** sar.c: read_stats_from_file. The whole output is that of the replay, whatever the state the
        buffers were in; it stops before its end only at an average over a null interval, the first one there is. */
    method ReadStatsFromFile() returns (ok: bool)
      requires Valid() && pos == 0 && out == [] && asumCount == 0 && asumGauge == 0
      modifies slicer, buf, this`pos, this`curr, this`cnt, this`eosaf, this`reset, this`asumCount, this`asumGauge,
               this`out
      ensures var all := Replay(o, recs);
              ok == AllProper(all, o.procs > 0) && if ok then out == all else Halts(0, out, all, o.procs > 0)
      ensures ok ==> Restarts(out) == Markers(recs)
    {
      hide Replay, AllProper, Restarts, Markers;
      ghost var all := Replay(o, recs);
      assert recs[0..] == recs;
      NothingImproper(o.procs > 0);
      ok := true;
      var more := true;
      while more
        invariant Valid() && ok
        invariant more ==> asumCount == 0 && asumGauge == 0
        invariant more ==> out + Replay(o, recs[pos..]) == all && AllProper(out, o.procs > 0)
        invariant !more ==> out == all && AllProper(all, o.procs > 0)
        decreases |recs| - pos, more
      {
        ghost var before, rest := out, Replay(o, recs[pos..]);
        ok, more := ReadSegment();
        ProperAppend(before, rest, o.procs > 0);
        if !ok {
          assert before[0..] == before && [] + all == all && before + (rest + []) == all;
          HaltsWithin([], before, out, rest, [], all, o.procs > 0);
          return;
        }
        if more {
          ProperAppend(before, out[|before|..], o.procs > 0);
          assert before + out[|before|..] == out;
        }
      }
      EachRestartOnce(o, recs);
    }
  }

  /** What follows the passes over a segment. */
  ghost function TailOf(o: Options, p: PassResult, after: seq<Rec>): seq<Out>
    requires ValidOptions(o) && p.used <= |after| && (p.stop.AtEof? ==> p.used == |after|)
    requires EndsAtMarker(p, after) ==> SegmentEnd(p, after) > 0
  {
    if EndsAtMarker(p, after) then
      var n := SegmentEnd(p, after);
      [Restart(after[n - 1])] + Replay(o, after[n..])
    else []
  }

  lemma Parts<T>(a: seq<T>, b: seq<T>, c: seq<T>, d: seq<T>)
    ensures a + b + c + d == a + (b + (c + d)) && (a + b + c + d)[|a|..] == b + (c + d)
    ensures a + b + c <= a + (b + (c + d))
    ensures d == [] ==> a + b + c == a + (b + (c + d))
  {
    assert a + b + c + d == a + (b + (c + d));
  }

  lemma Behind<T>(a: seq<T>, b: seq<T>)
    ensures a <= a + b && (a + b)[|a|..] == b
  {}

  lemma Regrouped<T>(a: seq<T>, b: seq<T>, c: seq<T>, d: seq<T>)
    ensures a + b + (c + d) == a + (b + (c + d))
  {}

  lemma Joined<T>(a: seq<T>, b: seq<T>, c: seq<T>, d: seq<T>, e: seq<T>)
    ensures a + b + c + d + e == a + (b + (c + (d + e)))
  {
    assert c + d + e == c + (d + e);
    assert a + b + c + d + e == a + b + (c + d + e) == a + (b + (c + d + e));
  }

  lemma SegmentReplay(o: Options, rest: seq<Rec>)
    requires ValidOptions(o)
    ensures !Seek(o, rest).found ==> Replay(o, rest) == Seek(o, rest).outs
    ensures Seek(o, rest).found ==>
            var k := Seek(o, rest);
            var base, after := rest[k.used - 1], rest[k.used..];
            var p := Pass(o, base, 0, after, o.count);
            && (EndsAtMarker(p, after) ==> SegmentEnd(p, after) > 0)
            && Replay(o, rest) == k.outs + (Passes(o.acts, base, p.shown) + TailOf(o, p, after))
  {
    hide Seek, Pass, Passes, EndsAtMarker, SegmentEnd, TailOf;
    var k := Seek(o, rest);
    if k.found {
      var base, after := rest[k.used - 1], rest[k.used..];
      SegmentMarkers(o, base, after);
      var p := Pass(o, base, 0, after, o.count);
      var passes, tail := Passes(o.acts, base, p.shown), TailOf(o, p, after);
      ReplayFound(o, rest);
      Grouped(k.outs, passes, tail);
    }
  }

  lemma Grouped<T>(a: seq<T>, b: seq<T>, c: seq<T>)
    ensures a + b + c == a + (b + c)
  {}

  lemma ReplayFound(o: Options, rest: seq<Rec>)
    requires ValidOptions(o) && Seek(o, rest).found
    ensures var k := Seek(o, rest);
            var base, after := rest[k.used - 1], rest[k.used..];
            var p := Pass(o, base, 0, after, o.count);
            && (EndsAtMarker(p, after) ==> SegmentEnd(p, after) > 0)
            && Replay(o, rest) == k.outs + Passes(o.acts, base, p.shown) + TailOf(o, p, after)
  {
    hide Seek, Pass, Passes, EndsAtMarker, SegmentEnd;
    var k := Seek(o, rest);
    SegmentMarkers(o, rest[k.used - 1], rest[k.used..]);
  }

  lemma {:induction false} SeekProper(o: Options, rest: seq<Rec>)
    ensures AllProper(Seek(o, rest).outs, o.procs > 0)
    decreases |rest|
  {
    if rest != [] && !(rest[0].Stats? && !OutOfHours(o, rest[0])) {
      SeekProper(o, rest[1..]);
    }
  }

  lemma MarkProper(x: Out, smp: bool)
    requires x.Restart?
    ensures AllProper([x], smp)
  {}

  lemma Strip<T>(out0: seq<T>, before: seq<T>, rest: seq<T>, trace: seq<T>)
    requires out0 <= before && before + rest == out0 + trace
    ensures trace == before[|out0|..] + rest
  {
    assert (before + rest)[|out0|..] == before[|out0|..] + rest;
    assert (out0 + trace)[|out0|..] == trace;
  }

  lemma Hours(o: Options, r: Rec)
    ensures OutOfHours(o, r) <==> (o.start.Some? && DateCmp(r.tod, o.start.value) < 0) ||
                                  (o.end.Some? && DateCmp(r.tod, o.end.value) >= 0)
  {}

  lemma NothingImproper(smp: bool)
    ensures AllProper([], smp)
  {}

  lemma ProperParts(a: seq<Out>, b: seq<Out>, c: seq<Out>, smp: bool)
    ensures AllProper(a + (b + c), smp) <==> AllProper(a, smp) && AllProper(b, smp) && AllProper(c, smp)
    ensures AllProper(a + b, smp) <==> AllProper(a, smp) && AllProper(b, smp)
  {
    hide Proper;
    ProperAppend(b, c, smp);
    ProperAppend(a, b + c, smp);
    ProperAppend(a, b, smp);
  }

  lemma ProperAppend(a: seq<Out>, b: seq<Out>, smp: bool)
    ensures AllProper(a + b, smp) <==> AllProper(a, smp) && AllProper(b, smp)
  {
    hide Proper;
    assert forall i :: 0 <= i < |a| ==> (a + b)[i] == a[i];
    assert forall i :: 0 <= i < |b| ==> (a + b)[|a| + i] == b[i];
    if AllProper(a + b, smp) {
      forall i | 0 <= i < |b| ensures Proper(b[i], smp) { assert Proper((a + b)[|a| + i], smp); }
      forall i | 0 <= i < |a| ensures Proper(a[i], smp) { assert Proper((a + b)[i], smp); }
    }
  }

  lemma HaltsAtAverage(out0: seq<Out>, act: nat, base: Rec, shown: seq<Rec>, smp: bool)
    requires shown != [] && !Proper(Average(act, base, Last(base, shown), |shown|, Gauges(shown)), smp)
    ensures Halts(|out0|, out0 + Lines(act, base, shown), out0 + PassOut(act, base, shown), smp)
  {
    hide Proper, Lines, Gauges, Last;
    LinesProper(act, base, shown, smp);
    var lines, all := Lines(act, base, shown), PassOut(act, base, shown);
    var full := out0 + all;
    assert full[..|out0| + |lines|] == out0 + lines;
    forall i | |out0| <= i < |out0| + |lines| ensures Proper(full[i], smp) {
      assert full[i] == lines[i - |out0|];
    }
    assert full[|out0| + |lines|] == all[|lines|];
  }

  /** Stopping within one part is stopping within the whole, if what came before was in order. */
  lemma HaltsWithin(out0: seq<Out>, before: seq<Out>, out: seq<Out>, mine: seq<Out>, rest: seq<Out>,
                    trace: seq<Out>, smp: bool)
    requires out0 <= before && Halts(|before|, out, before + mine, smp) && AllProper(before[|out0|..], smp)
    requires before + (mine + rest) == out0 + trace
    ensures Halts(|out0|, out, out0 + trace, smp) && out0 <= out
  {
    hide Proper;
    var part, full := before + mine, out0 + trace;
    assert forall i :: 0 <= i < |part| ==> full[i] == part[i];
    assert out == full[..|out|];
    forall i | |out0| <= i < |out| ensures Proper(full[i], smp) {
      if i < |before| { assert full[i] == before[|out0|..][i - |out0|]; } else { assert full[i] == part[i]; }
    }
    assert out0 == before[..|out0|] == out[..|out0|];
  }
}
