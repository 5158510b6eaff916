/** Selecting entries of an activity file by interval and by time of day, and the length of
    the interval between two records (sa_common.c). */
module Slices {
  import opened Arith

  const HZ: nat := 100

  type uint64 = x: int | 0 <= x < 0x1_0000_0000_0000_0000

  /** Difference of two 64-bit counters cut to 32 bits. */
  function Masked(later: uint64, earlier: uint64): (r: nat)
    ensures r < 0x1_0000_0000
    ensures earlier <= later < earlier + 0x1_0000_0000 ==> r == later - earlier
  {
    (later - earlier) % 0x1_0000_0000
  }

  /** Jiffies of all processors to seconds, rounded as next_slice does. */
  function Seconds(jiffies: nat, procs: nat): (s: nat) {
    var f := jiffies as real / (procs + 1) as real / HZ as real;
    Floors(jiffies, procs);
    var whole := f.Floor;
    if f * 10.0 - (whole * 10) as real >= 5.0 then whole + 1 else whole
  }

  lemma Floors(jiffies: nat, procs: nat)
    ensures (jiffies as real / (procs + 1) as real / HZ as real).Floor >= 0
  {
    assert jiffies as real / (procs + 1) as real >= 0.0;
  }

  /** That is rounding to the nearest second, halves upwards. */
  lemma SecondsNearest(jiffies: nat, procs: nat)
    ensures var exact := jiffies as real / (procs + 1) as real / HZ as real;
            exact - 0.5 < Seconds(jiffies, procs) as real <= exact + 0.5
  {}

  /** The window around an entry that comes `width` seconds after the one before it. */
  predicate InWindow(entry: nat, width: nat, m: int) {
    entry - width / 2 <= m < entry + width / 2 + width % 2
  }

  predicate Multiple(m: int, interval: nat)
    requires interval > 0
  {
    m % interval == 0
  }

  /** The test of next_slice: the multiple at or before the entry, or the one after it. */
  predicate Selected(entry: nat, width: nat, interval: nat)
    requires interval > 0
  {
    InWindow(entry, width, entry / interval * interval) ||
    InWindow(entry, width, (entry / interval + 1) * interval)
  }

  /** Two candidates are enough: an entry is selected exactly when its window contains some
      multiple of the interval. */
  lemma SelectedIff(entry: nat, width: nat, interval: nat)
    requires interval > 0
    ensures Selected(entry, width, interval) <==> exists m: int :: InWindow(entry, width, m) && Multiple(m, interval)
  {
    hide Multiple;
    var pt1, pt2 := entry / interval * interval, (entry / interval + 1) * interval;
    Neighbours(entry, interval);
    forall m: int | InWindow(entry, width, m) && Multiple(m, interval)
      ensures InWindow(entry, width, pt1) || InWindow(entry, width, pt2)
    {
      Nearest(entry, interval, m);
    }
  }

  /** The multiples of the interval on either side of an entry. */
  lemma Neighbours(entry: nat, interval: nat)
    requires interval > 0
    ensures var pt1, pt2 := entry / interval * interval, (entry / interval + 1) * interval;
            pt1 <= entry < pt2 && Multiple(pt1, interval) && Multiple(pt2, interval)
  {
    var q := entry / interval;
    MultipleOf(q, interval);
    MultipleOf(q + 1, interval);
    assert (q + 1) * interval == q * interval + interval;
  }

  /** No multiple comes between them. */
  lemma Nearest(entry: nat, interval: nat, m: int)
    requires interval > 0 && Multiple(m, interval)
    ensures m <= entry ==> m <= entry / interval * interval
    ensures m > entry ==> m >= (entry / interval + 1) * interval
  {
    var q, k := entry / interval, m / interval;
    Neighbours(entry, interval);
    assert m == k * interval;
    assert (q + 1) * interval == q * interval + interval;
    if m <= entry { NoMultipleBetween(k, q, interval); } else { NoMultipleBetween(q + 1, k, interval); }
  }

  lemma MultipleOf(q: int, interval: nat)
    requires interval > 0
    ensures Multiple(q * interval, interval)
  {
    DivModUnique(q * interval, interval, q, 0);
  }

  /** a*i < (b+1)*i gives a*i <= b*i. */
  lemma NoMultipleBetween(a: int, b: int, interval: nat)
    requires interval > 0 && a * interval < b * interval + interval
    ensures a * interval <= b * interval
  {
    if a > b {
      MulMono(b + 1, a, interval);
      assert (b + 1) * interval == b * interval + interval;
    }
  }

  /** Entries that come at a steady pace. */
  predicate Steady(entries: seq<nat>, width: nat) {
    && width >= 1
    && forall k :: 0 < k < |entries| ==> entries[k] == entries[k - 1] + width
  }

  lemma {:induction false} SteadyAt(entries: seq<nat>, width: nat, j: nat, k: nat)
    requires Steady(entries, width) && j <= k < |entries|
    ensures entries[k] == entries[j] + (k - j) * width
    decreases k
  {
    if j < k {
      SteadyAt(entries, width, j, k - 1);
      assert (k - 1 - j) * width + width == (k - j) * width;
    }
  }

  /** The windows of a steady run tile the time it covers: every moment, and so every multiple
      of the interval, lies in the window of exactly one entry. */
  lemma Tiling(entries: seq<nat>, width: nat, m: int) returns (k: nat)
    requires Steady(entries, width) && entries != []
    requires entries[0] - width / 2 <= m < entries[|entries| - 1] + width / 2 + width % 2
    ensures k < |entries| && InWindow(entries[k], width, m)
    ensures forall j :: 0 <= j < |entries| && j != k ==> !InWindow(entries[j], width, m)
  {
    k := 0;
    while !InWindow(entries[k], width, m)
      invariant k < |entries| && entries[k] - width / 2 <= m
      decreases |entries| - k
    {
      assert k + 1 < |entries|;
      k := k + 1;
    }
    forall j | 0 <= j < |entries| && j != k ensures !InWindow(entries[j], width, m) {
      if j < k { Apart(entries, width, j, k); } else { Apart(entries, width, k, j); }
    }
  }

  lemma Apart(entries: seq<nat>, width: nat, j: nat, k: nat)
    requires Steady(entries, width) && j < k < |entries|
    ensures entries[j] + width <= entries[k]
  {
    SteadyAt(entries, width, j, k);
    MulMono(1, k - j, width);
  }

  /** Over a steady run each multiple of the interval in the covered span is accounted for by
      one entry and no other, and an entry is shown only for such a multiple. */
  lemma ExactCover(entries: seq<nat>, width: nat, interval: nat, m: int) returns (k: nat)
    requires Steady(entries, width) && entries != [] && interval > 0 && Multiple(m, interval)
    requires entries[0] - width / 2 <= m < entries[|entries| - 1] + width / 2 + width % 2
    ensures k < |entries| && Selected(entries[k], width, interval) && InWindow(entries[k], width, m)
    ensures forall j :: 0 <= j < |entries| && j != k ==> !InWindow(entries[j], width, m)
  {
    k := Tiling(entries, width, m);
    SelectedIff(entries[k], width, interval);
  }

  /** next_slice with its static variable. */
  class Slicer {
    var lastUptime: uint64

    constructor ()
      ensures lastUptime == 0
    {
      lastUptime := 0;
    }

    /** sa_common.c: next_slice. */
    method NextSlice(uptimeRef: uint64, uptime: uint64, procs: nat, reset: bool, interval: nat) returns (shown: bool)
      requires interval > 0
      modifies this
      ensures lastUptime == uptime
      ensures shown <==> exists m: int ::
                InWindow(Entry(uptimeRef, uptime, procs),
                         Width(uptimeRef, if reset then 0 else old(lastUptime), uptime, procs), m) &&
                Multiple(m, interval)
      ensures shown == Shown(uptimeRef, if reset then 0 else old(lastUptime), uptime, procs, interval)
    {
      if lastUptime == 0 || reset {
        lastUptime := uptimeRef;
      }
      var fileInterval := Seconds(Masked(uptime, lastUptime), procs);
      lastUptime := uptime;
      var entry := Seconds(Masked(uptime, uptimeRef), procs);
      var min := entry - fileInterval / 2;
      var max := entry + fileInterval / 2 + fileInterval % 2;
      var pt1 := entry / interval * interval;
      var pt2 := (entry / interval + 1) * interval;
      shown := (min <= pt1 < max) || (min <= pt2 < max);
      SelectedIff(entry, fileInterval, interval);
    }
  }

  /** Seconds from the reference to a record. */
  function Entry(uptimeRef: uint64, uptime: uint64, procs: nat): nat {
    Seconds(Masked(uptime, uptimeRef), procs)
  }

  /** Seconds since the record before it; `last` is 0 when there is none. */
  function Width(uptimeRef: uint64, last: uint64, uptime: uint64, procs: nat): nat {
    Seconds(Masked(uptime, if last == 0 then uptimeRef else last), procs)
  }

  /** How far an uptime is from an earlier one, in seconds of one processor. */
  function Elapsed(earlier: uint64, later: uint64, procs: nat): real {
    (later - earlier) as real / (procs + 1) as real / HZ as real
  }

  /** Both are true to half a second, as long as less than 2^32 jiffies have passed. */
  lemma EntryWidthNearest(uptimeRef: uint64, last: uint64, uptime: uint64, procs: nat)
    ensures uptimeRef <= uptime < uptimeRef + 0x1_0000_0000 ==>
              var exact := Elapsed(uptimeRef, uptime, procs);
              exact - 0.5 < Entry(uptimeRef, uptime, procs) as real <= exact + 0.5
    ensures last != 0 && last <= uptime < last + 0x1_0000_0000 ==>
              var exact := Elapsed(last, uptime, procs);
              exact - 0.5 < Width(uptimeRef, last, uptime, procs) as real <= exact + 0.5
    ensures last == 0 ==> Width(uptimeRef, last, uptime, procs) == Entry(uptimeRef, uptime, procs)
  {
    hide Seconds;
    SecondsNearest(Masked(uptime, uptimeRef), procs);
    SecondsNearest(Masked(uptime, last), procs);
  }

  predicate Shown(uptimeRef: uint64, last: uint64, uptime: uint64, procs: nat, interval: nat)
    requires interval > 0
  {
    Selected(Entry(uptimeRef, uptime, procs), Width(uptimeRef, last, uptime, procs), interval)
  }

  /** Uptimes read in one pass: each is judged against the one before it. */
  function Before(ups: seq<uint64>, k: nat): uint64
    requires k < |ups|
  {
    if k == 0 then 0 else ups[k - 1]
  }

  /** Records that come at a steady pace, in whole seconds. */
  predicate Pace(uptimeRef: uint64, ups: seq<uint64>, procs: nat, width: nat) {
    && (forall k :: 0 <= k < |ups| ==> Width(uptimeRef, Before(ups, k), ups[k], procs) == width)
    && (forall k :: 0 < k < |ups| ==>
          Entry(uptimeRef, ups[k], procs) == Entry(uptimeRef, ups[k - 1], procs) + width)
  }

  lemma SecondsExact(s: nat, procs: nat)
    ensures Seconds(s * (HZ * (procs + 1)), procs) == s
  {
    hide Seconds;
    var n, d := s * (HZ * (procs + 1)), (procs + 1) as real;
    assert n as real == (s * HZ) as real * d by { assert n == s * HZ * (procs + 1); }
    assert n as real / d == (s * HZ) as real;
    assert (s * HZ) as real / HZ as real == s as real;
    SecondsNearest(n, procs);
  }

  /** Uptimes that each come so many whole seconds after the one before, the first after the reference,
      and less than 2^32 jiffies after it in all. */
  predicate Regular(uptimeRef: uint64, ups: seq<uint64>, procs: nat, width: nat) {
    forall k :: 0 <= k < |ups| ==>
      && ups[k] == uptimeRef + (k + 1) * width * (HZ * (procs + 1))
      && ups[k] < uptimeRef + 0x1_0000_0000
  }

  /** Such records come at a steady pace. */
  lemma RegularPace(uptimeRef: uint64, ups: seq<uint64>, procs: nat, width: nat)
    requires width >= 1 && Regular(uptimeRef, ups, procs, width)
    ensures Pace(uptimeRef, ups, procs, width)
    ensures forall k :: 0 <= k < |ups| ==> Entry(uptimeRef, ups[k], procs) == (k + 1) * width
  {
    forall k | 0 <= k < |ups|
      ensures Width(uptimeRef, Before(ups, k), ups[k], procs) == width
      ensures Entry(uptimeRef, ups[k], procs) == (k + 1) * width
    {
      RegularAt(uptimeRef, ups, procs, width, k);
    }
    forall k | 0 < k < |ups|
      ensures Entry(uptimeRef, ups[k], procs) == Entry(uptimeRef, ups[k - 1], procs) + width
    {
      assert (k + 1) * width == k * width + width;
    }
  }

  lemma RegularAt(uptimeRef: uint64, ups: seq<uint64>, procs: nat, width: nat, k: nat)
    requires width >= 1 && Regular(uptimeRef, ups, procs, width) && k < |ups|
    ensures Width(uptimeRef, Before(ups, k), ups[k], procs) == width
    ensures Entry(uptimeRef, ups[k], procs) == (k + 1) * width
  {
    hide Seconds;
    var j := HZ * (procs + 1);
    SecondsExact((k + 1) * width, procs);
    SecondsExact(width, procs);
    assert 1 * width * j == width * j;
    if k > 0 {
      MulMono(1, k, width);
      MulMono(1, k * width, j);
      assert (k + 1) * width * j == k * width * j + width * j;
    }
  }

  /** A pass over records at a steady pace: for each multiple of the interval in the span they
      cover exactly one record's window holds it, and that record is shown. */
  lemma PassCover(uptimeRef: uint64, ups: seq<uint64>, procs: nat, width: nat, interval: nat, m: int) returns (k: nat)
    requires ups != [] && width >= 1 && interval > 0 && Multiple(m, interval) && Pace(uptimeRef, ups, procs, width)
    requires InSpan(Entry(uptimeRef, ups[0], procs), Entry(uptimeRef, ups[|ups| - 1], procs), width, m)
    ensures k < |ups| && Shown(uptimeRef, Before(ups, k), ups[k], procs, interval)
    ensures InWindow(Entry(uptimeRef, ups[k], procs), width, m)
    ensures forall j :: 0 <= j < |ups| && j != k ==> !InWindow(Entry(uptimeRef, ups[j], procs), width, m)
  {
    hide Entry, Width, Multiple;
    var entries := seq(|ups|, i requires 0 <= i < |ups| => Entry(uptimeRef, ups[i], procs));
    k := ExactCover(entries, width, interval, m);
    forall j | 0 <= j < |ups| && j != k ensures !InWindow(Entry(uptimeRef, ups[j], procs), width, m) {
      assert !InWindow(entries[j], width, m);
    }
  }

  /** The stretch of time that a run of windows covers. */
  predicate InSpan(first: nat, last: nat, width: nat, m: int) {
    first - width / 2 <= m < last + width / 2 + width % 2
  }

  datatype Tod = Tod(hour: nat, min: nat, sec: nat)

  predicate ValidTod(t: Tod) {
    t.hour < 24 && t.min < 60 && t.sec < 60
  }

  /** sa_common.c: datecmp. */
  function DateCmp(t: Tod, limit: Tod): int {
    if t.hour == limit.hour then
      if t.min == limit.min then t.sec - limit.sec else t.min - limit.min
    else t.hour - limit.hour
  }

  function SecondOfDay(t: Tod): nat {
    3600 * t.hour + 60 * t.min + t.sec
  }

  /** It orders by the time of day. */
  lemma DateCmpOrders(t: Tod, limit: Tod)
    requires ValidTod(t) && ValidTod(limit)
    ensures (DateCmp(t, limit) < 0 <==> SecondOfDay(t) < SecondOfDay(limit))
    ensures (DateCmp(t, limit) > 0 <==> SecondOfDay(t) > SecondOfDay(limit))
  {}
}
