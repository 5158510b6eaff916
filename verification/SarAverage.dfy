/** The lines of a pass add up to its average line (sar.c: write_stats, write_stats_avg). */
module SarAverage {
  import opened Bytes
  import opened Slices
  import opened SarPass

  /** sa_common.c: get_itv_value, the interval of one line. */
  function LineInterval(prev: Rec, cur: Rec, one: bool): nat
    requires prev.Stats? && cur.Stats?
  {
    var g := if Clock(prev, one) == 0 then Clock(cur, one) else Masked(Clock(cur, one), Clock(prev, one));
    if g == 0 then 1 else g
  }

  function SumIntervals(prev: Rec, shown: seq<Rec>, one: bool): nat
    requires prev.Stats? && AllStats(shown)
    decreases |shown|
  {
    if shown == [] then 0 else LineInterval(prev, shown[0], one) + SumIntervals(shown[0], shown[1..], one)
  }

  function SumDeltas(prev: Rec, shown: seq<Rec>): int
    requires prev.Stats? && AllStats(shown)
    decreases |shown|
  {
    if shown == [] then 0 else shown[0].counter - prev.counter + SumDeltas(shown[0], shown[1..])
  }

  /** The clock advances from line to line, by less than 2^32 jiffies each time; counters never drop. */
  predicate Rising(prev: Rec, shown: seq<Rec>, one: bool)
    decreases |shown|
  {
    && prev.Stats?
    && (shown != [] ==>
          && shown[0].Stats?
          && Clock(prev, one) < Clock(shown[0], one) < Clock(prev, one) + 0x1_0000_0000
          && prev.counter <= shown[0].counter
          && Rising(shown[0], shown[1..], one))
  }

  lemma {:induction false} RisingStats(prev: Rec, shown: seq<Rec>, one: bool)
    requires Rising(prev, shown, one)
    ensures AllStats(shown) && Last(prev, shown).Stats?
    decreases |shown|
  {
    if shown != [] {
      RisingStats(shown[0], shown[1..], one);
      forall i | 0 <= i < |shown| ensures shown[i].Stats? {
        if i > 0 { assert shown[i] == shown[1..][i - 1]; }
      }
    }
  }

  lemma {:induction false} Telescope(prev: Rec, shown: seq<Rec>, one: bool)
    requires Rising(prev, shown, one)
    ensures AllStats(shown) && Last(prev, shown).Stats?
    ensures SumIntervals(prev, shown, one) == Clock(Last(prev, shown), one) - Clock(prev, one)
    ensures SumDeltas(prev, shown) == Last(prev, shown).counter - prev.counter
    decreases |shown|
  {
    RisingStats(prev, shown, one);
    if shown != [] {
      Telescope(shown[0], shown[1..], one);
      assert Last(prev, shown) == Last(shown[0], shown[1..]);
    }
  }

  /** The lines of a pass add up to its average line: the counter advances always, the intervals
      exactly when the whole pass covers less than 2^32 jiffies. */
  lemma AverageIsSum(base: Rec, shown: seq<Rec>, one: bool)
    requires Rising(base, shown, one)
    ensures AllStats(shown) && Last(base, shown).Stats?
    ensures SumDeltas(base, shown) == Last(base, shown).counter - base.counter
    ensures SumIntervals(base, shown, one) == AverageInterval(base, Last(base, shown), one) <==>
            Clock(Last(base, shown), one) - Clock(base, one) < 0x1_0000_0000
  {
    Telescope(base, shown, one);
  }

  /** The records of a boot segment after `prev`: the clock advances from each to the next, by less than
      2^32 jiffies in all, and the counter never drops. */
  predicate Climbing(base: Rec, prev: Rec, recs: seq<Rec>, one: bool)
    requires base.Stats? && prev.Stats?
    decreases |recs|
  {
    recs != [] ==>
      && recs[0].Stats?
      && Clock(prev, one) < Clock(recs[0], one) < Clock(base, one) + 0x1_0000_0000
      && prev.counter <= recs[0].counter
      && Climbing(base, recs[0], recs[1..], one)
  }

  /** Whatever a pass leaves out, what it shows of such a segment is rising from line to line; `seen` is
      the record shown last, or the base. */
  lemma {:induction false} PassRising(o: Options, base: Rec, last: uint64, rest: seq<Rec>, n: int,
                                      seen: Rec, prev: Rec, one: bool)
    requires ValidOptions(o) && base.Stats? && seen.Stats? && prev.Stats? && n != 0
    requires Clock(base, one) <= Clock(seen, one) <= Clock(prev, one) && seen.counter <= prev.counter
    requires Climbing(base, prev, rest[..NextMarker(rest)], one)
    ensures Rising(seen, Pass(o, base, last, rest, n).shown, one)
    decreases |rest|
  {
    hide Judge, Pass;
    PassStep(o, base, last, rest, n);
    if rest != [] && rest[0].Stats? {
      var r, k := rest[0], NextMarker(rest[1..]);
      assert rest[..NextMarker(rest)][1..] == rest[1..][..k];
      var v := Judge(o, base, last, r);
      var left := if v == Show && n > 0 then n - 1 else n;
      if v != Late && left != 0 {
        PassRising(o, base, r.uptime, rest[1..], left, if v == Show then r else seen, r, one);
        var p := Pass(o, base, r.uptime, rest[1..], left);
        assert ([r] + p.shown)[1..] == p.shown && [] + p.shown == p.shown;
      } else {
        assert [r][1..] == [];
      }
    }
  }

  /** So for a boot segment of a file in which the clock and the counters rise, and which covers less
      than 2^32 jiffies, the lines of every pass add up to its average line. */
  lemma SegmentAverage(o: Options, base: Rec, rest: seq<Rec>, one: bool)
    requires ValidOptions(o) && base.Stats? && Climbing(base, base, rest[..NextMarker(rest)], one)
    ensures var shown := Pass(o, base, 0, rest, o.count).shown;
            && AllStats(shown) && Last(base, shown).Stats?
            && SumDeltas(base, shown) == Last(base, shown).counter - base.counter
            && SumIntervals(base, shown, one) == AverageInterval(base, Last(base, shown), one)
  {
    hide Pass, NextMarker;
    var shown := Pass(o, base, 0, rest, o.count).shown;
    PassRising(o, base, 0, rest, o.count, base, base, one);
    AverageIsSum(base, shown, one);
    PassWithin(o, base, 0, rest, o.count, base, one);
  }

  lemma {:induction false} PassWithin(o: Options, base: Rec, last: uint64, rest: seq<Rec>, n: int, prev: Rec, one: bool)
    requires ValidOptions(o) && base.Stats? && prev.Stats? && n != 0
    requires Climbing(base, prev, rest[..NextMarker(rest)], one)
    ensures var shown := Pass(o, base, last, rest, n).shown;
            shown != [] ==> shown[|shown| - 1].Stats? &&
                            Clock(shown[|shown| - 1], one) - Clock(base, one) < 0x1_0000_0000
    decreases |rest|
  {
    hide Judge, Pass;
    PassStep(o, base, last, rest, n);
    if rest != [] && rest[0].Stats? {
      var r, k := rest[0], NextMarker(rest[1..]);
      assert rest[..NextMarker(rest)][1..] == rest[1..][..k];
      var v := Judge(o, base, last, r);
      var left := if v == Show && n > 0 then n - 1 else n;
      if v != Late && left != 0 { PassWithin(o, base, r.uptime, rest[1..], left, r, one); }
    }
  }

  // ---------- the same on what is printed ----------

  /** Over the lines printed: their number, and the sums of their intervals, of the advances of the counter
      and of the gauge. */
  datatype Sums = Sums(lines: nat, interval: int, counter: int, gauge: int)

  function Added(x: Out, one: bool, s: Sums): Sums {
    if x.Line? && x.prev.Stats? && x.cur.Stats? then
      Sums(1 + s.lines, LineInterval(x.prev, x.cur, one) + s.interval, x.cur.counter - x.prev.counter + s.counter,
           x.cur.gauge + s.gauge)
    else s
  }

  function SumsOf(outs: seq<Out>, one: bool): Sums {
    if outs == [] then Sums(0, 0, 0, 0) else Added(outs[0], one, SumsOf(outs[1..], one))
  }

  lemma {:induction false} LinesSums(act: nat, prev: Rec, shown: seq<Rec>, one: bool)
    requires prev.Stats? && AllStats(shown)
    ensures SumsOf(Lines(act, prev, shown), one) ==
            Sums(|shown|, SumIntervals(prev, shown, one), SumDeltas(prev, shown), Gauges(shown))
    decreases |shown|
  {
    hide LineInterval;
    if shown != [] {
      LinesSums(act, shown[0], shown[1..], one);
      GaugesFirst(shown);
      var more := Lines(act, shown[0], shown[1..]);
      assert ([Line(act, prev, shown[0])] + more)[1..] == more;
    }
  }

  lemma {:induction false} GaugesFirst(shown: seq<Rec>)
    requires shown != [] && AllStats(shown)
    ensures Gauges(shown) == shown[0].gauge + Gauges(shown[1..])
    decreases |shown|
  {
    var n := |shown| - 1;
    if n > 0 {
      GaugesFirst(shown[..n]);
      assert shown[..n][1..] == shown[1..][..n - 1];
    } else {
      assert shown[1..] == [];
    }
  }

  lemma {:induction false} SumsAppend(outs: seq<Out>, x: Out, one: bool)
    requires !x.Line?
    ensures SumsOf(outs + [x], one) == SumsOf(outs, one)
    decreases |outs|
  {
    hide LineInterval;
    if outs == [] {
      assert [x][1..] == [];
    } else {
      assert (outs + [x])[1..] == outs[1..] + [x];
      SumsAppend(outs[1..], x, one);
    }
  }

  /** What is printed for a boot segment in which the clocks and the counters rise, and which covers less
      than 2^32 jiffies, ends with an average line that has the number of the lines before it, the sum of
      their gauges, and the counter advance and the interval that they add up to. */
  lemma ReportAddsUp(o: Options, base: Rec, rest: seq<Rec>, act: nat, one: bool)
    requires ValidOptions(o) && base.Stats? && Climbing(base, base, rest[..NextMarker(rest)], one)
    ensures var outs := PassOut(act, base, Pass(o, base, 0, rest, o.count).shown);
            outs != [] ==>
              var x, s := outs[|outs| - 1], SumsOf(outs, one);
              && x.Average? && x.act == act && x.first.Stats? && x.last.Stats?
              && s.lines == x.lines == |outs| - 1 > 0 && s.gauge == x.sum
              && s.counter == x.last.counter - x.first.counter
              && s.interval == Clock(x.last, one) - Clock(x.first, one) > 0
              && s.interval < 0x1_0000_0000
  {
    hide Pass, NextMarker, Climbing, LineInterval;
    var shown := Pass(o, base, 0, rest, o.count).shown;
    PassRising(o, base, 0, rest, o.count, base, base, one);
    Telescope(base, shown, one);
    PassWithin(o, base, 0, rest, o.count, base, one);
    LinesSums(act, base, shown, one);
    LinesNumber(act, base, shown);
    if shown != [] {
      SumsAppend(Lines(act, base, shown), Average(act, base, Last(base, shown), |shown|, Gauges(shown)), one);
      RisingAdvance(base, shown, one);
    }
  }

  lemma {:induction false} LinesNumber(act: nat, prev: Rec, shown: seq<Rec>)
    ensures |Lines(act, prev, shown)| == |shown|
    decreases |shown|
  {
    if shown != [] { LinesNumber(act, shown[0], shown[1..]); }
  }

  lemma {:induction false} RisingAdvance(prev: Rec, shown: seq<Rec>, one: bool)
    requires Rising(prev, shown, one) && shown != []
    ensures Last(prev, shown).Stats? && Clock(prev, one) < Clock(Last(prev, shown), one)
    decreases |shown|
  {
    if |shown| > 1 {
      RisingAdvance(shown[0], shown[1..], one);
      assert Last(prev, shown) == Last(shown[0], shown[1..]);
    }
  }

  /** sar gives up on no average over a time of less than 2^32 jiffies, on either clock if there are two. */
  lemma ReportComplete(o: Options, base: Rec, rest: seq<Rec>, act: nat, smp: bool)
    requires ValidOptions(o) && base.Stats? && Climbing(base, base, rest[..NextMarker(rest)], false)
    requires smp ==> Climbing(base, base, rest[..NextMarker(rest)], true)
    ensures AllProper(PassOut(act, base, Pass(o, base, 0, rest, o.count).shown), smp)
  {
    hide Pass, NextMarker, Climbing, AllProper, PassOut;
    var shown := Pass(o, base, 0, rest, o.count).shown;
    PassProper(act, base, shown, smp);
    if shown != [] {
      ReportAddsUp(o, base, rest, act, false);
      if smp { ReportAddsUp(o, base, rest, act, true); }
      var outs := PassOut(act, base, shown);
      assert outs[|outs| - 1] == Average(act, base, Last(base, shown), |shown|, Gauges(shown));
    }
  }
}
