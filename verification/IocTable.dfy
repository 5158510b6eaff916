/** The table of block devices: entries that own a configuration, entries that share another's,
    spare structures kept from line to line, and giving it all back (ioconf.c: ioc_init, ioc_free). */
module IocTable {
  import opened Bytes
  import opened IocConv
  import opened IocNames
  import opened IocLines

  /** malloc and free, by kind of object. Nothing may be released twice, or used after its release. */
  class Heap {
    ghost var entries: set<IocEntry>
    ghost var configs: set<BlkConfig>
    ghost var texts: set<Text>

    constructor ()
      ensures entries == {} && configs == {} && texts == {}
    {
      entries, configs, texts := {}, {}, {};
    }

    method NewEntry() returns (e: IocEntry)
      modifies this
      ensures fresh(e) && entries == old(entries) + {e} && configs == old(configs) && texts == old(texts)
      ensures !e.direct && e.desc == NoDesc && e.blkp == null
    {
      e := new IocEntry();
      entries := entries + {e};
    }

    method NewConfig() returns (b: BlkConfig)
      modifies this
      ensures fresh(b) && configs == old(configs) + {b} && entries == old(entries) && texts == old(texts)
    {
      b := new BlkConfig();
      configs := configs + {b};
    }

    method NewText(text: string) returns (t: Text)
      modifies this
      ensures fresh(t) && texts == old(texts) + {t} && entries == old(entries) && configs == old(configs)
      ensures t.text == text
    {
      t := new Text(text);
      texts := texts + {t};
    }

    method FreeEntry(e: IocEntry)
      requires e in entries
      modifies this
      ensures entries == old(entries) - {e} && configs == old(configs) && texts == old(texts)
    {
      entries := entries - {e};
    }

    method FreeConfig(b: BlkConfig)
      requires b in configs
      modifies this
      ensures configs == old(configs) - {b} && entries == old(entries) && texts == old(texts)
    {
      configs := configs - {b};
    }

    method FreeText(t: Text)
      requires t in texts
      modifies this
      ensures texts == old(texts) - {t} && entries == old(entries) && configs == old(configs)
    {
      texts := texts - {t};
    }
  }

  const ZEROED := Config("", None, AsLetters, "", 0, 0, None)

  class BlkConfig {
    var cfg: Config

    constructor ()
      ensures cfg == ZEROED
    {
      cfg := ZEROED;
    }
  }

  /** A description of its own, allocated for one entry. */
  class Text {
    var text: string

    constructor (text: string)
      ensures this.text == text
    {
      this.text := text;
    }
  }

  /** The desc pointer: null, into the shared configuration, or a string of its own. */
  datatype Desc = NoDesc | Within(b: BlkConfig) | Own(t: Text)

  class IocEntry {
    var direct: bool // "live" in the source
    var ctrlno: uint32
    var desc: Desc
    var blkp: BlkConfig?

    constructor ()
      ensures !direct && ctrlno == 0 && desc == NoDesc && blkp == null
    {
      direct, ctrlno, desc, blkp := false, 0, NoDesc, null;
    }
  }

  /** What ioc_name finds behind a major. */
  datatype Seen = Seen(cfg: Config, ctrlno: uint32, b: BlkConfig)

  /** A table as ioc_name sees it holds what `a` says after k lines. */
  ghost predicate Agrees(s: map<int, Seen>, a: map<int, Slot>, k: nat) {
    && s.Keys == a.Keys
    && (forall i :: i in a ==> a[i].group < k && s[i].cfg == a[i].cfg && s[i].ctrlno == a[i].ctrlno)
    && (forall i, j :: i in a && j in a ==> (a[i].group == a[j].group <==> s[i].b == s[j].b))
  }

  lemma SameKeys(s: map<int, Seen>, a: map<int, Slot>, k: nat)
    requires Agrees(s, a, k)
    ensures s.Keys == a.Keys
  {}

  lemma NoRecord(s: map<int, Seen>, a: map<int, Slot>, k: nat, l: Line)
    requires Agrees(s, a, k) && (l.Blank? || l.Malformed?)
    ensures Agrees(s, Apply(a, k, l), k + 1)
  {}

  lemma AgreesIndirect(s: map<int, Seen>, a: map<int, Slot>, k: nat, l: Line)
    requires Agrees(s, a, k) && l.Indirect?
    ensures var followed := 0 < l.indirect < MAX_BLKDEV && l.indirect in s && l.major < MAX_BLKDEV;
            Agrees(if followed then s[l.major := s[l.indirect].(ctrlno := l.ctrlno)] else s, Apply(a, k, l), k + 1)
  {}

  lemma AgreesDirect(s: map<int, Seen>, a: map<int, Slot>, k: nat, l: Line, b: BlkConfig)
    requires Agrees(s, a, k) && l.Direct? && forall i :: i in s ==> s[i].b != b
    ensures Agrees(if 0 < l.major < MAX_BLKDEV then s[l.major := Seen(l.cfg.(ext := None), l.ctrlno, b)] else s,
                   Apply(a, k, l), k + 1)
  {}

  ghost function DecoratedAll(s: map<int, Seen>, l: Line): map<int, Seen>
    requires l.Exception?
  {
    if 0 < l.major < MAX_BLKDEV && l.major in s then
      map i | i in s :: if s[i].b == s[l.major].b then s[i].(cfg := Decorated(s[i].cfg, l)) else s[i]
    else s
  }

  lemma AgreesException(s: map<int, Seen>, a: map<int, Slot>, k: nat, l: Line)
    requires Agrees(s, a, k) && l.Exception?
    ensures Agrees(DecoratedAll(s, l), Apply(a, k, l), k + 1)
  {
    hide Decorated;
  }

  class Table {
    const heap: Heap
    const ioconf: array<IocEntry?>
    ghost var owned: set<BlkConfig> // configurations brought in by direct records

    /** Objects reachable from slot i are allocated and belong where they are. */
    ghost predicate SlotOk(i: int)
      requires 0 <= i < ioconf.Length
      reads this, heap, ioconf, ioconf[i]
    {
      var e := ioconf[i];
      e != null ==>
        && e in heap.entries
        && e.blkp != null && e.blkp in owned && e.blkp in heap.configs
        && (e.direct ==> e.desc == NoDesc)
        && (!e.direct ==> e.desc == Within(e.blkp) || (e.desc.Own? && e.desc.t in heap.texts))
    }

    /** No two entries are the same object, share a description of their own, or own one configuration. */
    ghost predicate Separate(i: int, j: int)
      requires 0 <= i < ioconf.Length && 0 <= j < ioconf.Length
      reads this, ioconf, ioconf[i], ioconf[j]
    {
      var e, f := ioconf[i], ioconf[j];
      e != null && f != null && i != j ==>
        && e != f
        && (e.direct && f.direct ==> e.blkp != f.blkp)
        && (e.desc.Own? && f.desc.Own? ==> e.desc.t != f.desc.t)
    }

    /** The slots that are looked at again. There is one more, at MAX_BLKDEV, that an indirect record can
        be stored in and that nobody reads or releases. */
    ghost predicate Valid()
      reads this, heap, ioconf, set i | 0 <= i < ioconf.Length :: ioconf[i]
    {
      && ioconf.Length == MAX_BLKDEV + 1
      && (forall i :: 0 <= i < MAX_BLKDEV ==> SlotOk(i))
      && (forall i, j :: 0 <= i < MAX_BLKDEV && 0 <= j < MAX_BLKDEV ==> Separate(i, j))
    }

    constructor ()
      ensures Valid() && fresh(heap) && fresh(ioconf) && owned == {}
      ensures forall i :: 0 <= i < ioconf.Length ==> ioconf[i] == null
    {
      heap := new Heap();
      ioconf := new IocEntry?[MAX_BLKDEV + 1](_ => null);
      owned := {};
    }

    /** First loop of ioc_free: the entries that only refer to another's configuration. */
    method FreeReferences()
      requires Valid()
      modifies heap, ioconf
      ensures Valid()
      ensures forall i :: 0 <= i < MAX_BLKDEV ==>
                ioconf[i] == null || (ioconf[i] == old(ioconf[i]) && ioconf[i].direct)
    {
      var i := 0;
      while i < MAX_BLKDEV
        invariant 0 <= i <= MAX_BLKDEV && Valid()
        invariant forall k :: 0 <= k < MAX_BLKDEV ==> ioconf[k] == null || ioconf[k] == old(ioconf[k])
        invariant forall k :: 0 <= k < i && ioconf[k] != null ==> ioconf[k].direct
      {
        var p := ioconf[i];
        if p != null && !p.direct {
          label Before:
          assert SlotOk(i);
          assert p in heap.entries && p.blkp in heap.configs; // both are looked at
          if p.desc != Within(p.blkp) {
            heap.FreeText(p.desc.t);
          }
          heap.FreeEntry(p);
          ioconf[i] := null;
          forall k | 0 <= k < MAX_BLKDEV ensures SlotOk(k) {
            assert old@Before(SlotOk(k)) && old@Before(Separate(i, k));
          }
          forall j, k | 0 <= j < MAX_BLKDEV && 0 <= k < MAX_BLKDEV ensures Separate(j, k) {
            assert old@Before(Separate(j, k));
          }
        }
        i := i + 1;
      }
    }

    /** Second loop of ioc_free: what is left owns its configuration. */
    method FreeOwners()
      requires Valid()
      requires forall i :: 0 <= i < MAX_BLKDEV && ioconf[i] != null ==> ioconf[i].direct
      modifies heap, ioconf
      ensures forall i :: 0 <= i < MAX_BLKDEV ==> ioconf[i] == null
      ensures Valid()
    {
      var i := 0;
      while i < MAX_BLKDEV
        invariant 0 <= i <= MAX_BLKDEV && Valid()
        invariant forall k :: 0 <= k < MAX_BLKDEV ==> ioconf[k] == null || ioconf[k] == old(ioconf[k])
        invariant forall k :: 0 <= k < i ==> ioconf[k] == null
      {
        var p := ioconf[i];
        if p != null {
          label Before:
          assert SlotOk(i);
          heap.FreeConfig(p.blkp);
          heap.FreeEntry(p);
          ioconf[i] := null;
          forall k | 0 <= k < MAX_BLKDEV ensures SlotOk(k) {
            assert old@Before(SlotOk(k)) && old@Before(Separate(i, k));
          }
          forall j, k | 0 <= j < MAX_BLKDEV && 0 <= k < MAX_BLKDEV ensures Separate(j, k) {
            assert old@Before(Separate(j, k));
          }
        }
        i := i + 1;
      }
    }

    /** ioconf.c: ioc_free. */
    method IocFree()
      requires Valid()
      modifies heap, ioconf
      ensures Valid()
      ensures forall i :: 0 <= i < MAX_BLKDEV ==> ioconf[i] == null
    {
      FreeReferences();
      FreeOwners();
    }

    /** Configuration and controller number behind a major, as ioc_name sees them, and the object
        that holds the configuration. */
    ghost function Look(i: int): Option<Seen>
      requires 0 <= i < ioconf.Length
      reads this, ioconf, ioconf[i], if ioconf[i] != null then {ioconf[i].blkp} else {}
    {
      var e := ioconf[i];
      if e == null || e.blkp == null then None else Some(Seen(e.blkp.cfg, e.ctrlno, e.blkp))
    }

    /** The spare structures are allocated and cannot be reached from the table. */
    ghost predicate Spares(blkp: BlkConfig?, iocp: IocEntry?)
      reads this, heap, ioconf
    {
      && (blkp != null ==> blkp in heap.configs && blkp !in owned)
      && (iocp != null ==> iocp in heap.entries && forall i :: 0 <= i < ioconf.Length ==> ioconf[i] != iocp)
    }

    /** The two IOC_ALLOC and the two memset at the start of each line; false if malloc fails. */
    method Prepare(blkp0: BlkConfig?, iocp0: IocEntry?, fail: nat) returns (ok: bool, blkp: BlkConfig?, iocp: IocEntry?)
      requires Valid() && Spares(blkp0, iocp0)
      modifies heap, ioconf, blkp0, iocp0
      ensures Valid() && Spares(blkp, iocp)
      ensures ok ==> (blkp == blkp0 || fresh(blkp)) && (iocp == iocp0 || fresh(iocp))
      ensures ok ==> blkp != null && iocp != null && !iocp.direct && iocp.desc == NoDesc && iocp.blkp == null
      ensures ok ==> forall i :: 0 <= i < MAX_BLKDEV ==> ioconf[i] == old(ioconf[i]) && Look(i) == old(Look(i))
      ensures ok ==> Sight() == old(Sight())
      ensures !ok ==> fail != 0 && forall i :: 0 <= i < MAX_BLKDEV ==> ioconf[i] == null
    {
      blkp, iocp, ok := blkp0, iocp0, true;
      if (blkp == null && fail == 1) || (iocp == null && fail == 2) {
        IocFree();
        blkp, iocp := null, null;
        return false, blkp, iocp;
      }
      if blkp == null { blkp := heap.NewConfig(); }
      if iocp == null { iocp := heap.NewEntry(); }
      blkp.cfg := ZEROED;
      iocp.direct, iocp.ctrlno, iocp.desc, iocp.blkp := false, 0, NoDesc, null;
      forall i | 0 <= i < MAX_BLKDEV ensures SlotOk(i) && Look(i) == old(Look(i)) { assert old(SlotOk(i)); }
      forall i, j | 0 <= i < MAX_BLKDEV && 0 <= j < MAX_BLKDEV ensures Separate(i, j) {
        assert old(Separate(i, j)) && old(SlotOk(i)) && old(SlotOk(j));
      }
    }

    /** An indirect record is followed if its referent is in range and already there. */
    ghost predicate Followed(l: Line)
      requires ioconf.Length == MAX_BLKDEV + 1
      reads this, ioconf
    {
      l.Indirect? && 0 < l.indirect < MAX_BLKDEV && ioconf[l.indirect] != null
    }

    /** The indirect part of a line. The entry shares the configuration of its referent, unless
        it is its own referent: then it has none. */
    method AddIndirect(l: Line, iocp: IocEntry, fail: nat) returns (ok: bool, used: bool)
      requires Valid() && Spares(null, iocp) && l.Indirect? && (Followed(l) ==> l.major <= MAX_BLKDEV)
      requires !iocp.direct && iocp.desc == NoDesc && iocp.blkp == null
      modifies heap, ioconf, iocp
      ensures !ok ==> fail != 0 && Valid() && forall i :: 0 <= i < MAX_BLKDEV ==> ioconf[i] == null
      ensures ok ==> (used <==> old(Followed(l)))
      ensures ok && !used ==> Valid() && Spares(null, iocp)
      ensures ok && !used ==>
                forall i :: 0 <= i < MAX_BLKDEV ==> ioconf[i] == old(ioconf[i]) && Look(i) == old(Look(i))
      ensures ok && used ==> ioconf[l.major] == iocp && (Valid() <==> l.major != l.indirect)
      ensures ok && used && l.major == l.indirect ==> iocp.blkp == null
      ensures ok && used && l.major != l.indirect ==>
                old(Look(l.indirect)).Some? && Look(l.major) == Some(old(Look(l.indirect)).value.(ctrlno := l.ctrlno))
      ensures ok && used ==>
                forall i :: 0 <= i < MAX_BLKDEV && i != l.major ==>
                  ioconf[i] == old(ioconf[i]) && Look(i) == old(Look(i))
      ensures heap.configs >= old(heap.configs) || !ok
    {
      ok, used := true, false;
      iocp.ctrlno := l.ctrlno;
      if l.indirect == 0 || l.indirect >= MAX_BLKDEV || ioconf[l.indirect] == null {
        forall i | 0 <= i < MAX_BLKDEV ensures SlotOk(i) && Look(i) == old(Look(i)) { assert old(SlotOk(i)); }
        forall i, j | 0 <= i < MAX_BLKDEV && 0 <= j < MAX_BLKDEV
          ensures Separate(i, j) { assert old(Separate(i, j)); }
        return;
      }
      assert SlotOk(l.indirect);
      match l.desc {
        case None =>
          iocp.desc := Within(ioconf[l.indirect].blkp);
        case Some(text) =>
          if fail == 3 {
            forall i | 0 <= i < MAX_BLKDEV ensures SlotOk(i) { assert old(SlotOk(i)); }
            forall i, j | 0 <= i < MAX_BLKDEV && 0 <= j < MAX_BLKDEV
              ensures Separate(i, j) { assert old(Separate(i, j)); }
            IocFree();
            return false, false;
          }
          var t := heap.NewText(text);
          iocp.desc := Own(t);
      }
      ioconf[l.major] := iocp;
      iocp.blkp := ioconf[l.indirect].blkp;
      iocp.direct := false;
      used := true;
      forall i | 0 <= i < MAX_BLKDEV && i != l.major
        ensures SlotOk(i) && Look(i) == old(Look(i)) { assert old(SlotOk(i)); }
      forall i, j | 0 <= i < MAX_BLKDEV && 0 <= j < MAX_BLKDEV ensures Separate(i, j) {
        assert old(Separate(i, j)) && old(SlotOk(i)) && old(SlotOk(j));
      }
      if l.major != l.indirect {
        assert old(SlotOk(l.indirect));
        assert SlotOk(l.major);
      } else {
        assert !SlotOk(l.major);
      }
    }

    /** A direct record: the entry owns the configuration read from its line. */
    method AddDirect(l: Line, blkp: BlkConfig, iocp: IocEntry) returns (used: bool)
      requires Valid() && Spares(blkp, iocp) && l.Direct?
      modifies this, ioconf, blkp, iocp
      ensures Valid() && (used <==> 0 < l.major < MAX_BLKDEV)
      ensures !used ==> Spares(blkp, iocp)
      ensures owned == old(owned) + if used then {blkp} else {}
      ensures used ==> Look(l.major) == Some(Seen(l.cfg.(ext := None), l.ctrlno, blkp))
      ensures forall i :: 0 <= i < MAX_BLKDEV && (used ==> i != l.major) ==>
                ioconf[i] == old(ioconf[i]) && Look(i) == old(Look(i))
    {
      used := false;
      iocp.ctrlno, blkp.cfg := l.ctrlno, l.cfg.(ext := None);
      if 0 < l.major < MAX_BLKDEV {
        iocp.direct, iocp.blkp, iocp.desc := true, blkp, NoDesc;
        ioconf[l.major] := iocp;
        owned := owned + {blkp};
        used := true;
      }
      forall i | 0 <= i < MAX_BLKDEV ensures SlotOk(i) { assert old(SlotOk(i)); }
      forall i | 0 <= i < MAX_BLKDEV && (used ==> i != l.major)
        ensures Look(i) == old(Look(i)) { assert old(SlotOk(i)); }
      forall i, j | 0 <= i < MAX_BLKDEV && 0 <= j < MAX_BLKDEV ensures Separate(i, j) {
        assert old(Separate(i, j)) && old(SlotOk(i)) && old(SlotOk(j));
      }
    }

    /** An exception record decorates a configuration once, for all majors that share it. */
    method AddException(l: Line)
      requires Valid() && l.Exception?
      modifies owned
      ensures Valid()
      ensures forall i :: 0 <= i < MAX_BLKDEV && old(Look(i)).None? ==> Look(i).None?
      ensures forall i :: 0 <= i < MAX_BLKDEV && old(Look(i)).Some? ==>
                var v := old(Look(i)).value;
                var hit := 0 < l.major < MAX_BLKDEV && old(Look(l.major)).Some? && v.b == old(Look(l.major)).value.b;
                Look(i) == Some(if hit then v.(cfg := Decorated(v.cfg, l)) else v)
    {
      if 0 < l.major < MAX_BLKDEV && ioconf[l.major] != null {
        assert SlotOk(l.major);
        var x := ioconf[l.major].blkp;
        if x.cfg.ext.None? {
          x.cfg := x.cfg.(ext := Some((l.minor, l.name)));
        }
      }
      forall i | 0 <= i < MAX_BLKDEV ensures SlotOk(i) { assert old(SlotOk(i)); }
      forall i, j | 0 <= i < MAX_BLKDEV && 0 <= j < MAX_BLKDEV
        ensures Separate(i, j) { assert old(Separate(i, j)); }
    }

    /** The table holds what `a` says, after k lines: the same configuration and controller number
        for each major, in the same object for the majors of one group. */
    ghost predicate Shows(a: map<int, Slot>, k: nat)
      reads this, ioconf, set i | 0 <= i < ioconf.Length :: ioconf[i],
            set i | 0 <= i < ioconf.Length && ioconf[i] != null :: ioconf[i].blkp
    {
      Agrees(Sight(), a, k)
    }

    ghost function Sight(): map<int, Seen>
      reads this, ioconf, set i | 0 <= i < ioconf.Length :: ioconf[i],
            set i | 0 <= i < ioconf.Length && ioconf[i] != null :: ioconf[i].blkp
    {
      map i | 0 <= i < MAX_BLKDEV && i < ioconf.Length && Look(i).Some? :: Look(i).value
    }

    /** One line of the file, with the spares it leaves for the next. */
    method OneLine(l: Line, blkp0: BlkConfig?, iocp0: IocEntry?, fail: nat, ghost a: map<int, Slot>, ghost k: nat)
      returns (ok: bool, blkp: BlkConfig?, iocp: IocEntry?, found: nat)
      requires Valid() && Spares(blkp0, iocp0) && !Harmful(l, a.Keys) && Shows(a, k)
      modifies this, heap, ioconf, owned, blkp0, iocp0
      ensures Valid() && Spares(blkp, iocp)
      ensures ok ==> Shows(Apply(a, k, l), k + 1) && found == if l.Direct? && 0 < l.major < MAX_BLKDEV then 1 else 0
      ensures !ok ==> fail != 0 && forall i :: 0 <= i < MAX_BLKDEV ==> ioconf[i] == null
      ensures (blkp == null || blkp == blkp0 || fresh(blkp)) && (iocp == null || iocp == iocp0 || fresh(iocp))
      ensures forall b :: b in owned ==> b in old(owned) || b == blkp0 || fresh(b)
    {
      hide Agrees, Apply, Look;
      found := 0;
      ok, blkp, iocp := Prepare(blkp0, iocp0, fail);
      if !ok {
        blkp, iocp := null, null;
        return;
      }
      match l {
        case Indirect(_, _, _, _) =>
          var used;
          ok, used := TakeIndirect(l, iocp, fail, a, k);
          if !ok {
            blkp, iocp := null, null;
            return;
          }
          if used { iocp := null; }
        case Direct(_, _, _) =>
          var used := TakeDirect(l, blkp, iocp, a, k);
          if used { blkp, iocp, found := null, null, 1; }
        case Exception(_, _, _) =>
          TakeException(l, a, k);
        case _ =>
          NoRecord(Sight(), a, k, l);
      }
    }

    method TakeIndirect(l: Line, iocp: IocEntry, fail: nat, ghost a: map<int, Slot>, ghost k: nat)
      returns (ok: bool, used: bool)
      requires Valid() && Spares(null, iocp) && l.Indirect? && !Harmful(l, a.Keys) && Shows(a, k)
      requires !iocp.direct && iocp.desc == NoDesc && iocp.blkp == null
      modifies heap, ioconf, iocp
      ensures Valid() && (ok ==> Shows(Apply(a, k, l), k + 1) && heap.configs >= old(heap.configs))
      ensures ok && !used ==> Spares(null, iocp)
      ensures !ok ==> fail != 0 && forall i :: 0 <= i < MAX_BLKDEV ==> ioconf[i] == null
    {
      hide Agrees, Apply;
      ghost var s := Sight();
      assert l.indirect < MAX_BLKDEV ==> SlotOk(l.indirect);
      SameKeys(s, a, k);
      ok, used := AddIndirect(l, iocp, fail);
      if ok {
        var seen := used && l.major < MAX_BLKDEV;
        assert Sight() == if seen then s[l.major := s[l.indirect].(ctrlno := l.ctrlno)] else s;
        AgreesIndirect(s, a, k, l);
      }
    }

    method TakeDirect(l: Line, blkp: BlkConfig, iocp: IocEntry, ghost a: map<int, Slot>, ghost k: nat)
      returns (used: bool)
      requires Valid() && Spares(blkp, iocp) && l.Direct? && Shows(a, k)
      modifies this, ioconf, blkp, iocp
      ensures Valid() && (used <==> 0 < l.major < MAX_BLKDEV) && Shows(Apply(a, k, l), k + 1)
      ensures !used ==> Spares(blkp, iocp)
      ensures owned == old(owned) + if used then {blkp} else {}
    {
      hide Agrees, Apply;
      ghost var s := Sight();
      forall i | i in s ensures s[i].b != blkp { assert SlotOk(i); }
      used := AddDirect(l, blkp, iocp);
      assert Sight() == if used then s[l.major := Seen(l.cfg.(ext := None), l.ctrlno, blkp)] else s;
      AgreesDirect(s, a, k, l, blkp);
    }

    method TakeException(l: Line, ghost a: map<int, Slot>, ghost k: nat)
      requires Valid() && l.Exception? && Shows(a, k)
      modifies owned
      ensures Valid() && Shows(Apply(a, k, l), k + 1)
    {
      hide Agrees, Apply, Decorated;
      ghost var s := Sight();
      AddException(l);
      assert Sight() == DecoratedAll(s, l);
      AgreesException(s, a, k, l);
    }

    lemma EmptyTable()
      requires ioconf.Length == MAX_BLKDEV + 1
      requires forall i :: 0 <= i < MAX_BLKDEV ==> ioconf[i] == null
      ensures Shows(map[], 0)
    {
      assert Sight() == map[];
    }

    /** ioconf.c: ioc_init over the lines of the file; `fails[k]` tells which allocation of line k
        fails (0: none). However the lines follow each other, the table stays sound: spares that
        are zeroed again for each line are out of its reach, and all of it can be released. And it
        holds what the lines mean, or nothing at all if an allocation fails. */
    method IocInit(lines: seq<Line>, fails: seq<nat>) returns (ok: bool, count: nat)
      requires Valid() && |fails| == |lines| && forall i :: 0 <= i < MAX_BLKDEV ==> ioconf[i] == null
      requires forall k :: 0 <= k < |lines| ==> !Harmful(lines[k], Parsed(lines[..k]).Keys)
      modifies this, heap, ioconf, owned
      ensures Valid()
      ensures ok ==> Shows(Parsed(lines), |lines|) && count == Directs(lines)
      ensures !ok ==> count == 0 && forall i :: 0 <= i < MAX_BLKDEV ==> ioconf[i] == null
      ensures (forall k :: 0 <= k < |lines| ==> fails[k] == 0) ==> ok
    {
      hide Apply, Agrees, Look;
      ok, count := true, 0;
      var blkp: BlkConfig?, iocp: IocEntry? := null, null;
      var k := 0;
      ghost var owned0 := owned;
      assert lines[..0] == [];
      EmptyTable();
      while k < |lines|
        invariant 0 <= k <= |lines| && Valid() && Spares(blkp, iocp)
        invariant Shows(Parsed(lines[..k]), k) && count == Directs(lines[..k])
        invariant blkp == null || fresh(blkp)
        invariant iocp == null || fresh(iocp)
        invariant forall b :: b in owned ==> b in owned0 || fresh(b)
      {
        var l := lines[k];
        assert lines[..k + 1][..k] == lines[..k] && lines[..k + 1][k] == l;
        if l != Blank {
          var found;
          ok, blkp, iocp, found := OneLine(l, blkp, iocp, fails[k], Parsed(lines[..k]), k);
          if !ok {
            return false, 0;
          }
          count := count + found;
        } else {
          NoRecord(Sight(), Parsed(lines[..k]), k, l);
        }
        k := k + 1;
      }
      assert lines[..k] == lines;
      Release(blkp, iocp, Parsed(lines), k);
    }

    /** The spares left at the end. */
    method Release(blkp: BlkConfig?, iocp: IocEntry?, ghost a: map<int, Slot>, ghost k: nat)
      requires Valid() && Spares(blkp, iocp) && Shows(a, k)
      modifies heap
      ensures Valid() && Shows(a, k)
    {
      hide Agrees, Look;
      if blkp != null { heap.FreeConfig(blkp); }
      if iocp != null { heap.FreeEntry(iocp); }
      forall i | 0 <= i < MAX_BLKDEV ensures SlotOk(i) { assert old(SlotOk(i)); }
      forall i, j | 0 <= i < MAX_BLKDEV && 0 <= j < MAX_BLKDEV
        ensures Separate(i, j) { assert old(Separate(i, j)); }
    }

    /** ioconf.c: ioc_name once the file has been parsed. */
    method IocName(major: uint32, minor: uint32) returns (name: Option<string>)
      requires Valid()
      ensures name == if major >= MAX_BLKDEV || minor >= IOC_MAXMINOR then None
                      else if Look(major).None? then Some(K_NODEV)
                      else Some(EntryName(Look(major).value.cfg, Look(major).value.ctrlno, minor))
    {
      hide Letters, Decimal;
      if major >= MAX_BLKDEV || minor >= IOC_MAXMINOR {
        return None;
      }
      var p := ioconf[major];
      assert SlotOk(major);
      if p == null || minor >= p.blkp.cfg.dcount * p.blkp.cfg.pcount % 0x1_0000_0000 {
        return Some(K_NODEV);
      }
      var c := p.blkp.cfg;
      assert Look(major) == Some(Seen(c, p.ctrlno, p.blkp));
      if c.ext.Some? && c.ext.value.0 == minor {
        return Some(c.ext.value.1);
      }
      var offset := minor / c.pcount;
      if c.ctrl.None? {
        offset := offset + p.ctrlno * c.dcount;
      }
      offset := offset % 0x1_0000_0000;
      var s := c.name;
      if c.ctrl.Some? {
        var n := Ito10(p.ctrlno);
        s := s + c.ctrl.value + n;
      }
      match c.disk {
        case AsLetters =>
          var d := Ito26(offset);
          s := s + d;
        case AsNumber(prefix) =>
          var d := Ito10(offset);
          s := s + (prefix + d);
      }
      if minor % c.pcount != 0 {
        var n := Ito10(minor % c.pcount);
        s := s + (c.part + n);
      } else {
        assert s == s + "";
      }
      name := Some(s);
    }
  }

  /** The first question asked: parse the file, then name the device, from what its lines mean. A
      file without a direct record is taken for a failure. */
  method NameFromFile(lines: seq<Line>, major: uint32, minor: uint32) returns (name: Option<string>)
    requires forall k :: 0 <= k < |lines| ==> !Harmful(lines[k], Parsed(lines[..k]).Keys)
    ensures name.None? <==>
            || major >= MAX_BLKDEV || minor >= IOC_MAXMINOR
            || forall k :: 0 <= k < |lines| ==> !IsDirect(lines[k])
    ensures name.Some? ==> NamedBy(name.value, lines, major, minor)
  {
    hide EntryName, Parsed, NamedBy;
    var t := new Table();
    if major >= MAX_BLKDEV || minor >= IOC_MAXMINOR {
      return None;
    }
    var ok, count := t.IocInit(lines, seq(|lines|, _ => 0));
    NoDirects(lines);
    if count == 0 {
      return None;
    }
    assert t.Sight().Keys == Parsed(lines).Keys;
    assert forall i :: 0 <= i < MAX_BLKDEV ==> (t.Look(i).Some? <==> i in t.Sight());
    name := t.IocName(major, minor);
    NameMeans(lines, major, minor);
  }
}
