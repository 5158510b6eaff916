/** CPU utilisation from counters that may be 32 or 64 bits wide (common.c: ll_sp_value;
    sa_common.c: get_itv_value; sar.c: write_stats_core). */
module CpuShare {
  import opened Arith
  import opened Slices

  const WORD: int := 0x1_0000_0000

  /** The jiffies of the five modes as stored in file_stats. */
  datatype Cpu = Cpu(user: uint64, nice: uint64, system: uint64, idle: uint64, iowait: uint64)

  /** sadc.c: read_proc_stat, an unsigned 64-bit sum. */
  function Uptime(c: Cpu): uint64 {
    Sum(c) % (WORD * WORD)
  }

  function Sum(c: Cpu): nat {
    c.user + c.nice + c.system + c.idle + c.iowait
  }

  /** common.c: ll_sp_value before the division. */
  function Delta(v1: uint64, v2: uint64): nat {
    if v2 < v1 && v1 < WORD then (v2 - v1) % WORD else (v2 - v1) % (WORD * WORD)
  }

  /** A counter that has advanced by `ticks`, kept in 64 bits or in 32. */
  predicate Advanced(v1: uint64, v2: uint64, ticks: nat) {
    v2 == v1 + ticks || (v1 < WORD && v2 == (v1 + ticks) % WORD)
  }

  /** The width of the counter need not be known: an advance below 2^32 is recovered exactly. */
  lemma DeltaExact(v1: uint64, v2: uint64, ticks: nat)
    requires Advanced(v1, v2, ticks) && ticks < WORD
    ensures Delta(v1, v2) == ticks
  {}

  /** sa_common.c: get_itv_value for all processors. */
  function Interval(prev: Cpu, cur: Cpu): (itv: nat)
    ensures itv > 0
  {
    var g := if Uptime(prev) == 0 then Uptime(cur) else Masked(Uptime(cur), Uptime(prev));
    if g == 0 then 1 else g
  }

  /** Advances of the five modes. */
  datatype Advance = Advance(user: nat, nice: nat, system: nat, idle: nat, iowait: nat)

  function Total(a: Advance): nat {
    a.user + a.nice + a.system + a.idle + a.iowait
  }

  predicate AllAdvanced(prev: Cpu, cur: Cpu, a: Advance) {
    && Advanced(prev.user, cur.user, a.user)
    && Advanced(prev.nice, cur.nice, a.nice)
    && Advanced(prev.system, cur.system, a.system)
    && Advanced(prev.idle, cur.idle, a.idle)
    && Advanced(prev.iowait, cur.iowait, a.iowait)
  }

  /** The uptime of the record before is not taken for none at all while a counter wraps. */
  predicate Sound(prev: Cpu, cur: Cpu) {
    Uptime(prev) != 0 || Sum(prev) <= Sum(cur)
  }

  /** Each wrap of a 32-bit counter takes a multiple of 2^32 from the sum, which the mask hides, unless
      the 64-bit sum before has overflowed to exactly 0: then the interval is right if nothing wraps. */
  lemma UptimeAdvance(prev: Cpu, cur: Cpu, a: Advance)
    requires AllAdvanced(prev, cur, a) && 1 <= Total(a) < WORD
    ensures Interval(prev, cur) == Total(a) <==> Sound(prev, cur)
    ensures Interval(prev, cur) >= Total(a)
  {
    hide Advanced, AllAdvanced, Uptime, Sum, Total, Interval;
    var before, now, total := Sum(prev), Sum(cur), Total(a);
    var w := SumAdvance(prev, cur, a);
    var over := Overflows(cur) - Overflows(prev);
    if Uptime(prev) == 0 {
      FromZero(prev, cur, total, w, over);
    } else {
      var k := -w - over * WORD;
      assert over * (WORD * WORD) == over * WORD * WORD;
      IntervalIs(prev, cur, k, total);
    }
  }

  lemma SumAdvance(prev: Cpu, cur: Cpu, a: Advance) returns (w: nat)
    requires AllAdvanced(prev, cur, a) && Total(a) < WORD
    ensures Sum(cur) == Sum(prev) + Total(a) - w * WORD && w <= 5
  {
    hide Advanced;
    var w1, w2 := Wraps(prev.user, cur.user, a.user), Wraps(prev.nice, cur.nice, a.nice);
    var w3 := Wraps(prev.system, cur.system, a.system);
    var w4, w5 := Wraps(prev.idle, cur.idle, a.idle), Wraps(prev.iowait, cur.iowait, a.iowait);
    w := w1 + w2 + w3 + w4 + w5;
  }

  lemma FromZero(prev: Cpu, cur: Cpu, total: nat, w: nat, over: int)
    requires Uptime(prev) == 0 && Sum(cur) == Sum(prev) + total - w * WORD && w <= 5 && 1 <= total < WORD
    requires Uptime(cur) == Uptime(prev) + Sum(cur) - Sum(prev) - over * (WORD * WORD)
    ensures Interval(prev, cur) == total <==> Sum(prev) <= Sum(cur)
    ensures Interval(prev, cur) >= total
  {
    hide Uptime, Sum;
  }

  lemma IntervalIs(prev: Cpu, cur: Cpu, k: int, total: nat)
    requires Uptime(prev) != 0 && Uptime(cur) - Uptime(prev) == k * WORD + total && 1 <= total < WORD
    ensures Interval(prev, cur) == total
  {
    hide Uptime;
    DivModUnique(Uptime(cur) - Uptime(prev), WORD, k, total);
  }

  function Overflows(c: Cpu): (over: nat)
    ensures Uptime(c) == Sum(c) - over * (WORD * WORD)
  {
    Sum(c) / (WORD * WORD)
  }

  /** 1 if the counter is a 32-bit one and has wrapped. */
  function Wraps(v1: uint64, v2: uint64, ticks: nat): (w: nat)
    requires Advanced(v1, v2, ticks) && ticks < WORD
    ensures v2 == v1 + ticks - w * WORD && w <= 1
  {
    if v2 == v1 + ticks then 0 else 1
  }

  function Percent(d: nat, itv: nat): real
    requires itv > 0
  {
    d as real / itv as real * 100.0
  }

  /** The idle column: "handle buggy kernels". */
  function IdlePercent(v1: uint64, v2: uint64, itv: nat): real
    requires itv > 0
  {
    if v2 < v1 then 0.0 else Percent(Delta(v1, v2), itv)
  }

  /** The five columns of a CPU line. */
  function Columns(prev: Cpu, cur: Cpu): seq<real> {
    var itv := Interval(prev, cur);
    [Percent(Delta(prev.user, cur.user), itv), Percent(Delta(prev.nice, cur.nice), itv),
     Percent(Delta(prev.system, cur.system), itv), Percent(Delta(prev.iowait, cur.iowait), itv),
     IdlePercent(prev.idle, cur.idle, itv)]
  }

  /** A CPU line shows the true shares of the time elapsed, and they total 100 percent, exactly
      when the idle counter has not dropped (it then shows 0 instead of its share) and the uptime
      before was not an overflow to 0. */
  lemma SharesTotal100(prev: Cpu, cur: Cpu, a: Advance)
    requires AllAdvanced(prev, cur, a) && 1 <= Total(a) < WORD
    ensures var c, itv := Columns(prev, cur), Interval(prev, cur);
            && c[0] == Percent(a.user, itv) && c[1] == Percent(a.nice, itv)
            && c[2] == Percent(a.system, itv) && c[3] == Percent(a.iowait, itv)
            && (itv == Total(a) <==> Sound(prev, cur))
            && (c[0] + c[1] + c[2] + c[3] + c[4] == 100.0 <==> cur.idle >= prev.idle && Sound(prev, cur))
  {
    hide Percent, Delta, Interval, Uptime;
    UptimeAdvance(prev, cur, a);
    DeltaExact(prev.user, cur.user, a.user);
    DeltaExact(prev.nice, cur.nice, a.nice);
    DeltaExact(prev.system, cur.system, a.system);
    DeltaExact(prev.iowait, cur.iowait, a.iowait);
    DeltaExact(prev.idle, cur.idle, a.idle);
    var t := Interval(prev, cur);
    var others := a.user + a.nice + a.system + a.iowait;
    assert cur.idle < prev.idle ==> a.idle > 0;
    FourShares(a, t);
    ShareAdd(others, a.idle, t);
    FullShare(others + a.idle, t);
    FullShare(others, t);
  }

  lemma FourShares(a: Advance, t: nat)
    requires t > 0
    ensures Percent(a.user, t) + Percent(a.nice, t) + Percent(a.system, t) + Percent(a.iowait, t) ==
            Percent(a.user + a.nice + a.system + a.iowait, t)
  {
    hide Percent;
    ShareAdd(a.user, a.nice, t);
    ShareAdd(a.user + a.nice, a.system, t);
    ShareAdd(a.user + a.nice + a.system, a.iowait, t);
  }

  /** Only all of it is 100 percent. */
  lemma FullShare(d: nat, t: nat)
    requires t > 0
    ensures Percent(d, t) == 100.0 <==> d == t
  {
    var q := d as real / t as real;
    assert q * t as real == d as real;
  }

  lemma ShareAdd(d: nat, e: nat, t: nat)
    requires t > 0
    ensures Percent(d, t) + Percent(e, t) == Percent(d + e, t)
  {
    DivAdd(d as real, e as real, t as real);
  }

  lemma DivAdd(d: real, e: real, t: real)
    requires t > 0.0
    ensures d / t + e / t == (d + e) / t
  {
    var x, y, z := d / t, e / t, (d + e) / t;
    assert x * t == d && y * t == e && z * t == d + e;
    assert (x + y - z) * t == 0.0;
  }
}
