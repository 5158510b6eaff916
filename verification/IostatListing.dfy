/** Which devices iostat lists, as a function of the scans: the headers of its slots
    (iostat.c: set_entries_inactive, save_dev_stats, free_inactive_entries). */
module IostatListing {

  datatype IoStats = IoStats(rdIos: nat, wrIos: nat, rdSectors: nat, wrSectors: nat)

  const ZERO := IoStats(0, 0, 0, 0)

  /** A device found in a scan. */
  datatype Found = Found(name: string, sample: IoStats)

  /** The sample of each device in a scan; a device listed twice counts with its last one. */
  function Samples(scan: seq<Found>): map<string, IoStats> {
    if scan == [] then map[]
    else Samples(scan[..|scan| - 1])[scan[|scan| - 1].name := scan[|scan| - 1].sample]
  }

  function Names(scan: seq<Found>): set<string> {
    Samples(scan).Keys
  }

  /** struct io_hdr_stats. */
  datatype Hdr = Hdr(active: bool, used: bool, name: string)

  function IndexNamed(h: seq<Hdr>, dev: string): (i: nat)
    ensures i <= |h| && (i < |h| ==> h[i].name == dev)
    ensures forall k :: 0 <= k < i ==> h[k].name != dev
  {
    if h == [] || h[0].name == dev then 0 else 1 + IndexNamed(h[1..], dev)
  }

  function IndexFree(h: seq<Hdr>): (i: nat)
    ensures i <= |h| && (i < |h| ==> !h[i].used)
    ensures forall k :: 0 <= k < i ==> h[k].used
  {
    if h == [] || !h[0].used then 0 else 1 + IndexFree(h[1..])
  }

  /** The slot of a device: the one that has its name, or else a free one; |h| if there is none. */
  function SlotFor(h: seq<Hdr>, dev: string): (i: nat)
    ensures i <= |h|
  {
    var i := IndexNamed(h, dev);
    if i < |h| then i else IndexFree(h)
  }

  /** save_dev_stats: a slot that has the name is not put to use again. */
  function Saved(h: seq<Hdr>, dev: string): (h': seq<Hdr>)
    ensures |h'| == |h|
  {
    var i := SlotFor(h, dev);
    if i == |h| then h
    else if h[i].name == dev then h[i := h[i].(active := true)]
    else h[i := Hdr(true, true, dev)]
  }

  function SavedAll(h: seq<Hdr>, scan: seq<Found>): (h': seq<Hdr>)
    ensures |h'| == |h|
  {
    if scan == [] then h else Saved(SavedAll(h, scan[..|scan| - 1]), scan[|scan| - 1].name)
  }

  function Marked(h: seq<Hdr>): (h': seq<Hdr>)
    ensures |h'| == |h|
  {
    seq(|h|, i requires 0 <= i < |h| => h[i].(active := false))
  }

  function Swept(h: seq<Hdr>): (h': seq<Hdr>)
    ensures |h'| == |h|
  {
    seq(|h|, i requires 0 <= i < |h| => h[i].(used := h[i].used && h[i].active))
  }

  /** One reading of the statistics. */
  function Scanned(h: seq<Hdr>, scan: seq<Found>): (h': seq<Hdr>)
    ensures |h'| == |h|
  {
    Swept(SavedAll(Marked(h), scan))
  }

  /** The slots after any number of readings. */
  function After(nr: nat, scans: seq<seq<Found>>): (h: seq<Hdr>)
    ensures |h| == nr
  {
    if scans == [] then seq(nr, _ => Hdr(false, false, ""))
    else Scanned(After(nr, scans[..|scans| - 1]), scans[|scans| - 1])
  }

  /** The devices in the report. */
  function Listed(h: seq<Hdr>): set<string> {
    set i | 0 <= i < |h| && h[i].used :: h[i].name
  }

  /** The names that the slots remember. */
  function Known(h: seq<Hdr>): set<string> {
    set i | 0 <= i < |h| :: h[i].name
  }

  // ---------- what a scan does to the list ----------

  /** No name is in two slots, and slots in use have one. */
  predicate Tidy(h: seq<Hdr>) {
    && (forall i, j :: 0 <= i < |h| && 0 <= j < |h| && i != j && h[i].name != "" ==> h[i].name != h[j].name)
    && (forall i :: 0 <= i < |h| && h[i].used ==> h[i].name != "")
  }

  lemma SavedTidy(h: seq<Hdr>, dev: string)
    requires Tidy(h) && dev != ""
    ensures Tidy(Saved(h, dev)) && Known(Saved(h, dev)) <= Known(h) + {dev}
    ensures dev in Known(h) ==> Known(Saved(h, dev)) == Known(h)
  {}

  /** A device is listed then if it was before, or if no slot has its name and one is free. */
  lemma SavedListed(h: seq<Hdr>, dev: string)
    requires Tidy(h) && dev != ""
    ensures Listed(h) <= Listed(Saved(h, dev)) <= Listed(h) + {dev}
    ensures dev in Listed(Saved(h, dev)) <==> dev in Listed(h) || (dev !in Known(h) && IndexFree(h) < |h|)
  {
    var h', i := Saved(h, dev), SlotFor(h, dev);
    forall x | x in Listed(h) ensures x in Listed(h') {
      var k :| 0 <= k < |h| && h[k].used && h[k].name == x;
      assert h'[k].used && h'[k].name == x;
    }
    if dev !in Known(h) && IndexFree(h) < |h| {
      assert h[i].name in Known(h);
      assert h'[i].used && h'[i].name == dev;
    }
  }

  /** A slot in use for a device that has been found. */
  predicate Held(h: seq<Hdr>, dev: string) {
    exists i :: 0 <= i < |h| && h[i].used && h[i].active && h[i].name == dev
  }

  lemma SavedHeld(h: seq<Hdr>, dev: string, x: string)
    requires Tidy(h) && dev != ""
    ensures Held(h, x) ==> Held(Saved(h, dev), x)
    ensures dev in Listed(Saved(h, dev)) ==> Held(Saved(h, dev), dev)
  {
    var h' := Saved(h, dev);
    if Held(h, x) {
      var i :| 0 <= i < |h| && h[i].used && h[i].active && h[i].name == x;
      assert h'[i].used && h'[i].active && h'[i].name == x;
    }
    if dev in Listed(h') {
      var i :| 0 <= i < |h'| && h'[i].used && h'[i].name == dev;
      if h[i].name == dev {
        assert i == SlotFor(h, dev);
      }
      assert h'[i].active;
    }
  }

  /** Devices with names. */
  predicate AllNamed(scan: seq<Found>) {
    "" !in Names(scan)
  }

  lemma NamesStep(scan: seq<Found>)
    requires scan != []
    ensures var n := |scan| - 1; Names(scan) == Names(scan[..n]) + {scan[n].name}
  {}

  /** What is active has been found. */
  predicate OnlyFound(h: seq<Hdr>, names: set<string>) {
    forall i :: 0 <= i < |h| && h[i].active ==> h[i].name in names
  }

  lemma {:induction false} SavedAllKeeps(h: seq<Hdr>, scan: seq<Found>)
    requires Tidy(h) && AllNamed(scan) && OnlyFound(h, {})
    ensures var h' := SavedAll(h, scan);
            && Tidy(h') && Known(h') <= Known(h) + Names(scan) && OnlyFound(h', Names(scan))
            && Listed(h) <= Listed(h')
            && forall x :: x in Names(scan) && x in Listed(h') ==> Held(h', x)
    decreases |scan|
  {
    hide Saved, Held, Listed, Known, Tidy, OnlyFound;
    if scan != [] {
      var n := |scan| - 1;
      NamesStep(scan);
      SavedAllKeeps(h, scan[..n]);
      var h1, dev := SavedAll(h, scan[..n]), scan[n].name;
      SavedTidy(h1, dev);
      SavedListed(h1, dev);
      SavedFound(h1, dev, Names(scan[..n]));
      forall x | x in Names(scan) && x in Listed(Saved(h1, dev)) ensures Held(Saved(h1, dev), x) {
        SavedHeld(h1, dev, x);
      }
    } else {
      assert Names(scan) == {};
    }
  }

  lemma SavedFound(h: seq<Hdr>, dev: string, names: set<string>)
    requires OnlyFound(h, names)
    ensures OnlyFound(Saved(h, dev), names + {dev})
  {}

  lemma MarkedKeeps(h: seq<Hdr>)
    requires Tidy(h)
    ensures var h' := Marked(h); Tidy(h') && Known(h') == Known(h) && Listed(h') == Listed(h) && OnlyFound(h', {})
  {
    var h' := Marked(h);
    forall x ensures (x in Known(h') <==> x in Known(h)) && (x in Listed(h') <==> x in Listed(h)) {
      if x in Known(h) { var i :| 0 <= i < |h| && h[i].name == x; assert h'[i].name == x; }
      if x in Listed(h) { var i :| 0 <= i < |h| && h[i].used && h[i].name == x; assert h'[i].used && h'[i].name == x; }
    }
  }

  lemma SweptKeeps(h: seq<Hdr>, names: set<string>)
    requires Tidy(h) && OnlyFound(h, names)
    ensures var h' := Swept(h); Tidy(h') && Known(h') == Known(h) && Listed(h') <= names
    ensures forall x :: Held(h, x) <==> x in Listed(Swept(h))
  {
    var h' := Swept(h);
    forall x ensures (x in Known(h') <==> x in Known(h)) && (Held(h, x) <==> x in Listed(h')) {
      if x in Known(h) { var i :| 0 <= i < |h| && h[i].name == x; assert h'[i].name == x; }
      if Held(h, x) {
        var i :| 0 <= i < |h| && h[i].used && h[i].active && h[i].name == x;
        assert h'[i].used && h'[i].name == x;
      }
    }
  }

  /** After a scan the list has only devices that were found, and all of those that it had before. */
  lemma ScannedKeeps(h: seq<Hdr>, scan: seq<Found>)
    requires Tidy(h) && AllNamed(scan)
    ensures var h' := Scanned(h, scan);
            && Tidy(h') && Known(h') <= Known(h) + Names(scan)
            && Listed(h) * Names(scan) <= Listed(h') <= Names(scan)
  {
    hide Marked, SavedAll, Swept, Listed, Known, Tidy, Held, OnlyFound;
    MarkedKeeps(h);
    SavedAllKeeps(Marked(h), scan);
    SweptKeeps(SavedAll(Marked(h), scan), Names(scan));
  }

  // ---------- a device that is new ----------

  lemma {:induction false} DistinctNames(h: seq<Hdr>, n: nat)
    requires Tidy(h) && n <= |h| && forall i :: 0 <= i < n ==> h[i].used
    ensures |set i | 0 <= i < n :: h[i].name| == n
    decreases n
  {
    var s := set i | 0 <= i < n :: h[i].name;
    if n > 0 {
      DistinctNames(h, n - 1);
      var t := set i | 0 <= i < n - 1 :: h[i].name;
      assert s == t + {h[n - 1].name};
      assert h[n - 1].name !in t;
    }
  }

  lemma SmallerSet<T>(a: set<T>, b: set<T>)
    requires a <= b
    ensures |a| <= |b|
  {
    assert b == a + (b - a);
  }

  /** With more slots than names seen, one is free. */
  lemma HasRoom(h: seq<Hdr>, seen: set<string>)
    requires Tidy(h) && Known(h) <= seen + {""} && |seen| < |h|
    ensures IndexFree(h) < |h|
  {
    if IndexFree(h) == |h| {
      DistinctNames(h, |h|);
      var s := set i | 0 <= i < |h| :: h[i].name;
      assert forall x :: x in s ==> x in Known(h);
      assert "" !in s;
      SmallerSet(s, seen);
    }
  }

  /** A device whose name is in no slot is listed after the scan that finds it, if there are slots
      for all names seen so far and in this scan. */
  lemma {:induction false} NewListed(h: seq<Hdr>, scan: seq<Found>, seen: set<string>, dev: string)
    requires Tidy(h) && AllNamed(scan) && OnlyFound(h, {}) && Known(h) <= seen + {""}
    requires dev in Names(scan) && dev !in seen && dev != "" && |seen + Names(scan)| <= |h|
    ensures Held(SavedAll(h, scan), dev)
    decreases |scan|
  {
    hide Saved, Held, Listed, Known, Tidy, OnlyFound, IndexFree;
    var n := |scan| - 1;
    NamesStep(scan);
    SavedAllKeeps(h, scan[..n]);
    var h1, x, names := SavedAll(h, scan[..n]), scan[n].name, Names(scan[..n]);
    if dev in names {
      SmallerSet(seen + names, seen + Names(scan));
      NewListed(h, scan[..n], seen, dev);
      SavedHeld(h1, x, dev);
    } else {
      assert x == dev;
      assert seen + Names(scan) == (seen + names) + {dev};
      HasRoom(h1, seen + names);
      SavedListed(h1, dev);
      SavedHeld(h1, dev, dev);
    }
  }

  function AllNames(scans: seq<seq<Found>>): set<string> {
    if scans == [] then {} else AllNames(scans[..|scans| - 1]) + Names(scans[|scans| - 1])
  }

  predicate Proper(scans: seq<seq<Found>>) {
    forall k :: 0 <= k < |scans| ==> AllNamed(scans[k])
  }

  lemma {:induction false} AfterKeeps(nr: nat, scans: seq<seq<Found>>)
    requires Proper(scans)
    ensures Tidy(After(nr, scans)) && Known(After(nr, scans)) <= AllNames(scans) + {""}
    decreases |scans|
  {
    hide Scanned;
    if scans != [] {
      var n := |scans| - 1;
      AfterKeeps(nr, scans[..n]);
      ScannedKeeps(After(nr, scans[..n]), scans[n]);
    }
  }

  /** A device is listed as soon as it is found for the first time, if there are slots enough for
      all names that have turned up. */
  lemma FirstSeen(nr: nat, scans: seq<seq<Found>>, dev: string)
    requires Proper(scans) && scans != [] && |AllNames(scans)| <= nr
    requires dev in Names(scans[|scans| - 1]) && dev !in AllNames(scans[..|scans| - 1])
    ensures dev in Listed(After(nr, scans))
  {
    hide Marked, SavedAll, Swept, Listed, Known, Tidy, Held, OnlyFound;
    var n := |scans| - 1;
    var h, scan := After(nr, scans[..n]), scans[n];
    AfterKeeps(nr, scans[..n]);
    MarkedKeeps(h);
    NewListed(Marked(h), scan, AllNames(scans[..n]), dev);
    SavedAllKeeps(Marked(h), scan);
    SweptKeeps(SavedAll(Marked(h), scan), Names(scan));
  }

  /** And it stays listed as long as it is found. */
  lemma {:induction false} ListedSince(nr: nat, scans: seq<seq<Found>>, first: nat, dev: string)
    requires Proper(scans) && first < |scans| && |AllNames(scans)| <= nr
    requires dev !in AllNames(scans[..first])
    requires forall k :: first <= k < |scans| ==> dev in Names(scans[k])
    ensures dev in Listed(After(nr, scans))
    decreases |scans|
  {
    hide Scanned, Listed, Known, Tidy;
    var n := |scans| - 1;
    if first == n {
      FirstSeen(nr, scans, dev);
    } else {
      assert scans[..n][..first] == scans[..first];
      SmallerSet(AllNames(scans[..n]), AllNames(scans));
      ListedSince(nr, scans[..n], first, dev);
      AfterKeeps(nr, scans[..n]);
      ScannedKeeps(After(nr, scans[..n]), scans[n]);
    }
  }

  // ---------- a device that comes back ----------

  lemma SavedKnown(h: seq<Hdr>, dev: string)
    requires Tidy(h) && dev in Known(h) && dev != ""
    ensures Listed(Saved(h, dev)) == Listed(h)
  {
    SavedListed(h, dev);
  }

  lemma {:induction false} SavedAllKnown(h: seq<Hdr>, scan: seq<Found>)
    requires Tidy(h) && AllNamed(scan) && Names(scan) <= Known(h)
    ensures var h' := SavedAll(h, scan); Tidy(h') && Known(h') == Known(h) && Listed(h') == Listed(h)
    decreases |scan|
  {
    hide Saved, Listed, Known, Tidy;
    if scan != [] {
      var n := |scan| - 1;
      NamesStep(scan);
      SavedAllKnown(h, scan[..n]);
      var h1, dev := SavedAll(h, scan[..n]), scan[n].name;
      SavedTidy(h1, dev);
      SavedKnown(h1, dev);
    }
  }

  /** A scan that finds no new name lists exactly the devices that were listed and are found: one that
      has been away is not listed again. */
  lemma ScannedKnown(h: seq<Hdr>, scan: seq<Found>)
    requires Tidy(h) && AllNamed(scan) && Names(scan) <= Known(h)
    ensures var h' := Scanned(h, scan); Tidy(h') && Known(h') == Known(h) && Listed(h') == Listed(h) * Names(scan)
  {
    hide Marked, SavedAll, Swept, Listed, Known, Tidy, Held, OnlyFound;
    MarkedKeeps(h);
    SavedAllKeeps(Marked(h), scan);
    SavedAllKnown(Marked(h), scan);
    var h1 := SavedAll(Marked(h), scan);
    SweptKeeps(h1, Names(scan));
    ScannedKeeps(h, scan);
    forall x | x in Listed(Swept(h1)) ensures x in Listed(h) { HeldListed(h1, x); }
  }

  lemma HeldListed(h: seq<Hdr>, x: string)
    requires Held(h, x)
    ensures x in Listed(h)
  {}

  /** Within a scan in which a device is met once, at position j: whether it is listed is settled at
      its turn. */
  lemma {:induction false} ListedFrom(h: seq<Hdr>, scan: seq<Found>, j: nat, n: nat, dev: string)
    requires Tidy(h) && AllNamed(scan) && OnlyFound(h, {}) && j < |scan| && n <= |scan| && scan[j].name == dev
    requires forall i :: 0 <= i < |scan| && i != j ==> scan[i].name != dev
    ensures var turn := SavedAll(h, scan[..j]);
            dev in Listed(SavedAll(h, scan[..n])) <==>
            dev in Listed(h) || (n > j && dev !in Known(turn) && IndexFree(turn) < |h|)
    decreases n
  {
    hide Saved, Listed, Known, Tidy, OnlyFound, IndexFree;
    if n == 0 {
      assert scan[..0] == [];
    } else {
      assert scan[..n][..n - 1] == scan[..n - 1] && scan[..n][n - 1] == scan[n - 1];
      ListedFrom(h, scan, j, n - 1, dev);
      NamesPrefix(scan, n - 1);
      NamesPrefix(scan, n);
      SavedAllKeeps(h, scan[..n - 1]);
      NamesStep(scan[..n]);
      SavedListed(SavedAll(h, scan[..n - 1]), scan[n - 1].name);
    }
  }

  lemma {:induction false} NamesPrefix(scan: seq<Found>, n: nat)
    requires n <= |scan|
    ensures Names(scan[..n]) <= Names(scan)
    ensures n < |scan| ==> scan[n].name in Names(scan)
    decreases |scan| - n
  {
    hide Names;
    if n < |scan| {
      NamesPrefix(scan, n + 1);
      assert scan[..n + 1][..n] == scan[..n];
      NamesStep(scan[..n + 1]);
    } else {
      assert scan[..n] == scan;
    }
  }

  /** A device that is found and was not listed in the report before is listed exactly if, at its
      turn, no slot has its name any more and one is free. */
  lemma ReturnIff(h: seq<Hdr>, scan: seq<Found>, j: nat, dev: string)
    requires Tidy(h) && AllNamed(scan) && j < |scan| && scan[j].name == dev
    requires forall i :: 0 <= i < |scan| && i != j ==> scan[i].name != dev
    ensures var turn := SavedAll(Marked(h), scan[..j]);
            dev in Listed(Scanned(h, scan)) <==> dev in Listed(h) || (dev !in Known(turn) && IndexFree(turn) < |h|)
  {
    hide Marked, SavedAll, Swept, Listed, Known, Tidy, Held, OnlyFound, IndexFree;
    MarkedKeeps(h);
    var m := Marked(h);
    assert scan[..|scan|] == scan;
    ListedFrom(m, scan, j, |scan|, dev);
    SavedAllKeeps(m, scan);
    NamesPrefix(scan, j);
    SweptKeeps(SavedAll(m, scan), Names(scan));
    if Held(SavedAll(m, scan), dev) { HeldListed(SavedAll(m, scan), dev); }
  }

  /** In all of the scans. */
  function InEvery(scans: seq<seq<Found>>): set<string>
    requires scans != []
  {
    if |scans| == 1 then Names(scans[0]) else InEvery(scans[..|scans| - 1]) * Names(scans[|scans| - 1])
  }

  /** If all devices there are show up in the first scan, and there are slots for them, then a report
      lists exactly those that have been found in every scan: none that was away ever comes back. */
  lemma {:induction false} FixedDevices(nr: nat, scans: seq<seq<Found>>)
    requires Proper(scans) && scans != [] && |Names(scans[0])| <= nr
    requires forall k :: 0 <= k < |scans| ==> Names(scans[k]) <= Names(scans[0])
    ensures Listed(After(nr, scans)) == InEvery(scans) && Names(scans[0]) <= Known(After(nr, scans))
    decreases |scans|
  {
    hide Scanned, Listed, Known, Tidy, Names;
    var n := |scans| - 1;
    AfterKeeps(nr, scans[..n]);
    var h := After(nr, scans[..n]);
    if n == 0 {
      assert AllNames(scans[..0]) == {};
      assert AllNames(scans) == Names(scans[0]);
      ScannedKeeps(h, scans[0]);
      forall x | x in Names(scans[0]) ensures x in Listed(After(nr, scans)) && x in Known(After(nr, scans)) {
        FirstSeen(nr, scans, x);
        ListedKnown(After(nr, scans), x);
      }
    } else {
      FixedDevices(nr, scans[..n]);
      ScannedKnown(h, scans[n]);
    }
  }

  lemma ListedKnown(h: seq<Hdr>, x: string)
    requires x in Listed(h)
    ensures x in Known(h)
  {}

  lemma NamesOf(name: string, sample: IoStats)
    ensures Names([Found(name, sample)]) == {name} && Names([]) == {}
  {
    var f := [Found(name, sample)];
    assert f[..0] == [];
    NamesStep(f);
  }

  /** A device that is away for one scan is not listed when it is back, whatever the number of slots. */
  lemma HiddenOnReturn(nr: nat, a: string, s: IoStats)
    requires nr > 0 && a != ""
    ensures var f := [Found(a, s)]; Listed(After(nr, [f, [], f])) == {}
  {
    hide Names, Listed, After;
    var f := [Found(a, s)];
    NamesOf(a, s);
    var two, three := [f, []], [f, [], f];
    FixedDevices(nr, three);
    assert three[..2] == two && two[..1] == [f];
  }

  /** Unless a new device has been given its slot in the meantime. */
  lemma ListedOnReturn(a: string, c: string, s: IoStats)
    requires a != "" && c != "" && a != c
    ensures var f, g := [Found(a, s)], [Found(c, s)]; Listed(After(2, [f, [], g, f])) == {a}
  {
    hide Listed, After, Scanned;
    var f, g := [Found(a, s)], [Found(c, s)];
    var free := Hdr(false, false, "");
    AfterStep(2, [], f);
    AfterStep(2, [f], []);
    AfterStep(2, [f, []], g);
    AfterStep(2, [f, [], g], f);
    assert [] + [f] == [f] && [f] + [[]] == [f, []] && [f, []] + [g] == [f, [], g] && [f, [], g] + [f] == [f, [], g, f];
    var h0 := [free, free];
    NoSlotsUsed(h0);
    FirstTaken(free, free, a, s);
    NoneFound(Hdr(true, true, a), free);
    FirstTaken(Hdr(false, false, a), free, c, s);
    SecondTaken(Hdr(true, true, c), free, a, s);
    ListOfTwo([Hdr(false, false, c), Hdr(true, true, a)]);
  }

  lemma AfterStep(nr: nat, scans: seq<seq<Found>>, scan: seq<Found>)
    ensures After(nr, scans + [scan]) == Scanned(After(nr, scans), scan)
  {
    assert (scans + [scan])[..|scans|] == scans;
  }

  lemma NoSlotsUsed(h: seq<Hdr>)
    requires forall i :: 0 <= i < |h| ==> h[i] == Hdr(false, false, "")
    ensures After(|h|, []) == h
  {}

  lemma OneFound(h: seq<Hdr>, dev: string, s: IoStats)
    ensures Scanned(h, [Found(dev, s)]) == Swept(Saved(Marked(h), dev))
  {
    hide Saved, Swept, Marked;
    var f := [Found(dev, s)];
    assert f[..0] == [];
    assert SavedAll(Marked(h), f) == Saved(SavedAll(Marked(h), f[..0]), dev);
  }

  /** Of two slots, a new device takes the first one that is free. */
  lemma FirstTaken(x: Hdr, y: Hdr, dev: string, s: IoStats)
    requires !x.used && x.name != dev && !y.used && y.name != dev
    ensures Scanned([x, y], [Found(dev, s)]) == [Hdr(true, true, dev), Hdr(false, false, y.name)]
  {
    hide Scanned;
    OneFound([x, y], dev, s);
    var m := [x.(active := false), y.(active := false)];
    assert Marked([x, y]) == m;
    assert IndexNamed(m, dev) == 2 && IndexFree(m) == 0;
    assert Saved(m, dev) == [Hdr(true, true, dev), m[1]];
  }

  lemma SecondTaken(x: Hdr, y: Hdr, dev: string, s: IoStats)
    requires x.used && x.name != dev && !y.used && y.name != dev
    ensures Scanned([x, y], [Found(dev, s)]) == [Hdr(false, false, x.name), Hdr(true, true, dev)]
  {
    hide Scanned;
    OneFound([x, y], dev, s);
    var m := [x.(active := false), y.(active := false)];
    assert Marked([x, y]) == m;
    assert IndexNamed(m, dev) == 2 && IndexFree(m) == 1;
    assert Saved(m, dev) == [m[0], Hdr(true, true, dev)];
  }

  lemma NoneFound(x: Hdr, y: Hdr)
    ensures Scanned([x, y], []) == [Hdr(false, false, x.name), Hdr(false, false, y.name)]
  {}

  lemma ListOfTwo(h: seq<Hdr>)
    requires |h| == 2 && !h[0].used && h[1].used
    ensures Listed(h) == {h[1].name}
  {
    assert h[1].name in Listed(h);
  }
}
