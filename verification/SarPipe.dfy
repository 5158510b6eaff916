/** The stream between sadc and sar: headers and records back to back, where only the
    R_LAST_STATS mark of a record says that another header follows (sar.c: read_stats). */
module SarPipe {
  import opened Bytes
  import opened Framing
  import opened SaFormat
  import opened SaCounts

  datatype Item = Hdr(h: Header) | Rec(r: Record)

  function Encode(i: Item): seq<byte> {
    match i
    case Hdr(h) => EncodeHeader(h)
    case Rec(r) => EncodeRecord(r)
  }

  function EncodeItems(items: seq<Item>): seq<byte> {
    if items == [] then [] else Encode(items[0]) + EncodeItems(items[1..])
  }

  lemma {:induction false} EncodeItemsAppend(a: seq<Item>, b: seq<Item>)
    ensures EncodeItems(a + b) == EncodeItems(a) + EncodeItems(b)
    decreases |a|
  {
    hide Encode;
    if a == [] {
      assert a + b == b;
    } else {
      assert (a + b)[1..] == a[1..] + b;
      EncodeItemsAppend(a[1..], b);
    }
  }

  /** Frame of a record under a header; sar reads process blocks only if it asked for them. */
  function PipeFrame(h: Header, pids: bool): Frame {
    Frame(h.stSize, PipeBlocks(h, if pids then h.nrPid else 0))
  }

  /** What sar is about to read. The very first record is not tested for R_LAST_STATS. */
  datatype Expect = WantHdr(first: bool) | WantRec(h: Header, first: bool)

  const START := WantHdr(true)

  /** A record with just the blocks of its frame: on the pipe they are read whatever its type. */
  predicate Framed(f: Frame, r: Record) {
    0 < f.stSize == |r.stats| && Fits(r.extra, f.blocks)
  }

  predicate Accepts(e: Expect, i: Item, pids: bool) {
    match (e, i)
    case (WantHdr(_), Hdr(h)) => h.magic == SA_MAGIC && h.stSize > 0
    case (WantRec(h, _), Rec(r)) => Framed(PipeFrame(h, pids), r)
    case _ => false
  }

  function Next(e: Expect, i: Item): Expect {
    match (e, i)
    case (WantHdr(first), Hdr(h)) => WantRec(h, first)
    case (WantRec(h, first), Rec(r)) =>
      if !first && HasType(r.stats, R_LAST_STATS) then WantHdr(false) else WantRec(h, false)
    case _ => e
  }

  /** Writer and reader agree on what each item is: a header exactly where one is awaited,
      every record with the blocks of the header before it. */
  predicate InStep(e: Expect, items: seq<Item>, pids: bool)
    decreases |items|
  {
    items == [] || (Accepts(e, items[0], pids) && InStep(Next(e, items[0]), items[1..], pids))
  }

  function End(e: Expect, items: seq<Item>): Expect
    decreases |items|
  {
    if items == [] then e else End(Next(e, items[0]), items[1..])
  }

  lemma {:induction false} InStepAppend(e: Expect, items: seq<Item>, i: Item, pids: bool)
    ensures InStep(e, items + [i], pids) <==> InStep(e, items, pids) && Accepts(End(e, items), i, pids)
    ensures End(e, items + [i]) == Next(End(e, items), i)
    decreases |items|
  {
    hide Accepts, Next;
    if items == [] {
      assert [i][1..] == [];
    } else {
      assert (items + [i])[1..] == items[1..] + [i];
      InStepAppend(Next(e, items[0]), items[1..], i, pids);
    }
  }

  /** sar.c: read_header_data. A structure size of 0 is never sent. */
  function HeaderIn(b: seq<byte>): Option<Header> {
    if |b| < FILE_HDR_SIZE then None
    else
      var h := DecodeHeader(b[..FILE_HDR_SIZE]);
      if h.magic != SA_MAGIC || h.stSize == 0 then None else Some(h)
  }

  /** sar.c: read_stat_bunch; the end of the input within a record is the end of sar. */
  function RecordIn(f: Frame, b: seq<byte>): Option<Record> {
    var n := f.stSize + Sum(f.blocks);
    if |b| < n || f.stSize == 0 then None else Some(Record(b[..f.stSize], Split(b[f.stSize..n], f.blocks)))
  }

  /** sar's reading of the stream, up to its end or to the first thing it cannot read. */
  function ReadItems(e: Expect, b: seq<byte>, pids: bool): seq<Item>
    decreases |b|
  {
    match e
    case WantHdr(_) =>
      (match HeaderIn(b)
       case None => []
       case Some(h) => [Hdr(h)] + ReadItems(Next(e, Hdr(h)), b[FILE_HDR_SIZE..], pids))
    case WantRec(h, _) =>
      var f := PipeFrame(h, pids);
      match RecordIn(f, b)
      case None => []
      case Some(r) => [Rec(r)] + ReadItems(Next(e, Rec(r)), b[f.stSize + Sum(f.blocks)..], pids)
  }

  lemma ReadHeaderItem(e: Expect, h: Header, rest: seq<byte>, pids: bool)
    requires e.WantHdr? && Accepts(e, Hdr(h), pids)
    ensures ReadItems(e, Encode(Hdr(h)) + rest, pids) == [Hdr(h)] + ReadItems(Next(e, Hdr(h)), rest, pids)
  {
    hide DecodeHeader, EncodeHeader, PipeBlocks;
    var b := EncodeHeader(h) + rest;
    assert b[..FILE_HDR_SIZE] == EncodeHeader(h);
    assert b[FILE_HDR_SIZE..] == rest;
    HeaderRoundTrip(h);
  }

  lemma ReadRecordItem(e: Expect, r: Record, rest: seq<byte>, pids: bool)
    requires e.WantRec? && Accepts(e, Rec(r), pids)
    ensures ReadItems(e, Encode(Rec(r)) + rest, pids) == [Rec(r)] + ReadItems(Next(e, Rec(r)), rest, pids)
  {
    hide DecodeHeader, EncodeHeader, PipeBlocks, Next;
    var f := PipeFrame(e.h, pids);
    var b := EncodeRecord(r) + rest;
    SplitFlatten(r.extra, f.blocks);
    var n := f.stSize + Sum(f.blocks);
    assert b[..f.stSize] == r.stats;
    assert b[f.stSize..n] == Flatten(r.extra);
    assert b[n..] == rest;
  }

  /** sar recovers exactly the headers and records that were sent, for any number of
      rotations, if the two are in step. */
  lemma {:induction false} ReadItemsEncoded(e: Expect, items: seq<Item>, pids: bool)
    requires InStep(e, items, pids)
    ensures ReadItems(e, EncodeItems(items), pids) == items
    decreases |items|
  {
    hide DecodeHeader, EncodeHeader, PipeBlocks, Accepts, Encode, Next, ReadItems;
    if items == [] {
      ReadNothing(e, pids);
    } else {
      var i, rest := items[0], EncodeItems(items[1..]);
      ReadItemsEncoded(Next(e, i), items[1..], pids);
      ReadOneItem(e, i, rest, pids);
      assert items == [i] + items[1..];
    }
  }

  lemma ReadNothing(e: Expect, pids: bool)
    ensures ReadItems(e, [], pids) == []
  {}

  lemma ReadOneItem(e: Expect, i: Item, rest: seq<byte>, pids: bool)
    requires Accepts(e, i, pids)
    ensures ReadItems(e, Encode(i) + rest, pids) == [i] + ReadItems(Next(e, i), rest, pids)
  {
    hide ReadItems;
    match i
    case Hdr(h) => ReadHeaderItem(e, h, rest, pids);
    case Rec(r) => ReadRecordItem(e, r, rest, pids);
  }

  lemma RecordInFramed(f: Frame, b: seq<byte>)
    requires RecordIn(f, b).Some?
    ensures Framed(f, RecordIn(f, b).value)
  {
    FlattenSplit(b[f.stSize..f.stSize + Sum(f.blocks)], f.blocks);
  }

  /** Whatever the bytes, what sar takes from them is in step with what it awaits. */
  lemma {:induction false} ReadItemsInStep(e: Expect, b: seq<byte>, pids: bool)
    ensures InStep(e, ReadItems(e, b, pids), pids)
    decreases |b|
  {
    hide DecodeHeader, PipeBlocks, RecordIn;
    match e
    case WantHdr(_) =>
      if HeaderIn(b).Some? { ReadItemsInStep(Next(e, Hdr(HeaderIn(b).value)), b[FILE_HDR_SIZE..], pids); }
    case WantRec(h, _) =>
      var f := PipeFrame(h, pids);
      if RecordIn(f, b).Some? {
        RecordInFramed(f, b);
        RecordShorter(f, b);
        ReadItemsInStep(Next(e, Rec(RecordIn(f, b).value)), b[f.stSize + Sum(f.blocks)..], pids);
      }
  }

  lemma RecordShorter(f: Frame, b: seq<byte>)
    requires RecordIn(f, b).Some?
    ensures 0 < f.stSize + Sum(f.blocks) <= |b|
  {}

  /** So being in step is not a convention but what it takes for sar to get what was sent. */
  lemma InStepIffRead(e: Expect, items: seq<Item>, pids: bool)
    ensures ReadItems(e, EncodeItems(items), pids) == items <==> InStep(e, items, pids)
  {
    ReadItemsInStep(e, EncodeItems(items), pids);
    if InStep(e, items, pids) { ReadItemsEncoded(e, items, pids); }
  }

  /** Once a record carries other blocks than the header before it announced, sar does not get
      what was sent, whatever is sent later. */
  lemma MismatchBreaks(items: seq<Item>, r: Record, sent: seq<nat>, later: seq<Item>, pids: bool)
    requires End(START, items).WantRec?
    requires Fits(r.extra, sent) && sent != PipeFrame(End(START, items).h, pids).blocks
    ensures var all := items + [Rec(r)] + later; ReadItems(START, EncodeItems(all), pids) != all
  {
    hide ReadItems;
    var e, all := End(START, items), items + [Rec(r)] + later;
    assert !Accepts(e, Rec(r), pids) by {
      hide PipeFrame;
      var f := PipeFrame(e.h, pids);
      assert Fits(r.extra, f.blocks) ==> f.blocks == sent;
    }
    InStepAppend(START, items, Rec(r), pids);
    InStepIffRead(START, all, pids);
    if InStep(START, all, pids) {
      InStepPrefix(START, items + [Rec(r)], later, pids);
    }
  }

  lemma {:induction false} InStepPrefix(e: Expect, a: seq<Item>, b: seq<Item>, pids: bool)
    requires InStep(e, a + b, pids)
    ensures InStep(e, a, pids)
    decreases |a|
  {
    hide Accepts, Next;
    if a != [] {
      assert (a + b)[1..] == a[1..] + b;
      InStepPrefix(Next(e, a[0]), a[1..], b, pids);
    }
  }

  /** Standard input of sar; read(2) hands over any nonempty part of what is asked for. */
  class Pipe {
    const data: seq<byte>
    var pos: nat

    constructor (data: seq<byte>)
      ensures this.data == data && pos == 0
    {
      this.data := data;
      pos := 0;
    }

    ghost predicate Valid()
      reads this
    {
      pos <= |data|
    }

    ghost function Rest(): seq<byte>
      requires Valid()
      reads this
    {
      data[pos..]
    }

    method Read(size: nat) returns (buf: seq<byte>)
      requires Valid()
      modifies this
      ensures Valid()
      ensures |buf| <= size && old(Rest()) == buf + Rest()
      ensures buf == [] <==> size == 0 || old(Rest()) == []
    {
      var most := if size <= |data| - pos then size else |data| - pos;
      var n: nat :| n <= most && (n == 0 <==> most == 0);
      buf := data[pos..pos + n];
      pos := pos + n;
      assert data[old(pos)..] == buf + data[pos..];
    }

    /** sar.c: sa_read. Whatever the chunks, the bytes asked for arrive in order. */
    method SaRead(size: nat) returns (eof: bool, buf: seq<byte>)
      requires Valid()
      modifies this
      ensures Valid()
      ensures eof <==> |old(Rest())| < size
      ensures old(Rest()) == buf + Rest()
      ensures if eof then Rest() == [] else |buf| == size
    {
      buf, eof := [], false;
      var left := size;
      while left > 0
        invariant Valid()
        invariant 0 <= left && left + |buf| == size && !eof
        invariant old(Rest()) == buf + Rest()
        decreases left
      {
        var chunk := Read(left);
        if chunk == [] {
          eof := true;
          return;
        }
        buf := buf + chunk;
        left := left - |chunk|;
      }
    }

    /** sar.c: read_header_data; None when sar gives up (end of file or wrong magic). */
    method ReadHeaderData() returns (r: Option<Header>)
      requires Valid()
      modifies this
      ensures Valid() && r == HeaderIn(old(Rest()))
      ensures r.Some? ==> Rest() == old(Rest())[FILE_HDR_SIZE..]
    {
      hide DecodeHeader;
      var eof, buf := SaRead(FILE_HDR_SIZE);
      if eof {
        return None;
      }
      assert buf == old(Rest())[..FILE_HDR_SIZE];
      var h := DecodeHeader(buf);
      r := if h.magic != SA_MAGIC || h.stSize == 0 then None else Some(h);
    }

    /** One conditional sa_read of read_stat_bunch: from `start` on, the blocks of sizes `sizes`
        have been read so far, if the input has not ended within them. */
    method ReadBlock(eof: bool, present: bool, size: nat, got: seq<seq<byte>>,
                     ghost sizes: seq<nat>, ghost start: seq<byte>)
      returns (eof': bool, got': seq<seq<byte>>)
      requires Valid() && BlocksSoFar(eof, got, sizes, start, Rest())
      modifies this
      ensures Valid() && BlocksSoFar(eof', got', sizes + When(present, size), start, Rest())
    {
      hide BlocksSoFar;
      eof', got' := eof, got;
      if !eof && present {
        var buf;
        eof', buf := SaRead(size);
        if !eof' { got' := got + [buf]; }
        OneBlock(got, sizes, start, old(Rest()), size);
      } else {
        NoBlock(eof, got, sizes, start, Rest(), present, size);
      }
    }

    /** sar.c: read_stat_bunch under header `h`; None when the input has come to its end. */
    method ReadStatBunch(h: Header, pidNr: uint32) returns (r: Option<Record>)
      requires Valid() && h.stSize > 0
      modifies this
      ensures var f := Frame(h.stSize, PipeBlocks(h, pidNr));
              && Valid() && r == RecordIn(f, old(Rest()))
              && (r.Some? ==> Rest() == old(Rest())[f.stSize + Sum(f.blocks)..])
    {
      hide PipeBlocks, Fits, Flatten, Split, Sum, When, Has, BlocksSoFar;
      ghost var all, b := PipeBlocks(h, pidNr), Rest();
      var eof, stats := SaRead(h.stSize);
      if eof {
        return None;
      }
      ghost var start := Rest();
      assert stats == b[..h.stSize] && start == b[h.stSize..];
      NoBlocksYet(start);
      var extra := [];
      ghost var z: seq<nat> := [];
      var one, irq := STATS_ONE_CPU_SIZE * (h.proc + 1), Has(h.actflag, A_ONE_IRQ);
      var irqcpu := STATS_IRQ_CPU_SIZE * (h.proc + 1) * h.irqcpu;
      eof, extra := ReadBlock(eof, h.proc > 0, one, extra, z, start);
      z := When(h.proc > 0, one);
      assert [] + z == z;
      eof, extra := ReadBlock(eof, irq, STATS_ONE_IRQ_SIZE, extra, z, start);
      z := z + When(irq, STATS_ONE_IRQ_SIZE);
      eof, extra := ReadBlock(eof, pidNr != 0, PID_STATS_SIZE * pidNr, extra, z, start);
      z := z + When(pidNr != 0, PID_STATS_SIZE * pidNr);
      eof, extra := ReadBlock(eof, h.serial != 0, STATS_SERIAL_SIZE * h.serial, extra, z, start);
      z := z + When(h.serial != 0, STATS_SERIAL_SIZE * h.serial);
      eof, extra := ReadBlock(eof, h.irqcpu != 0, irqcpu, extra, z, start);
      z := z + When(h.irqcpu != 0, irqcpu);
      eof, extra := ReadBlock(eof, h.iface != 0, STATS_NET_DEV_SIZE * h.iface, extra, z, start);
      z := z + When(h.iface != 0, STATS_NET_DEV_SIZE * h.iface);
      eof, extra := ReadBlock(eof, h.nrDisk != 0, DISK_STATS_SIZE * h.nrDisk, extra, z, start);
      z := z + When(h.nrDisk != 0, DISK_STATS_SIZE * h.nrDisk);
      BlocksAre(h, pidNr, z);
      AllBlocks(eof, extra, z, h.stSize, b, Rest());
      r := if eof then None else Some(Record(stats, extra));
    }
  }

  /** `got` are the blocks of sizes `sizes` at the start of `start`, and `rest` is what follows,
      or else the input has ended within them. */
  predicate BlocksSoFar(eof: bool, got: seq<seq<byte>>, sizes: seq<nat>, start: seq<byte>, rest: seq<byte>) {
    if eof then |start| < Sum(sizes) else Fits(got, sizes) && start == Flatten(got) + rest
  }

  lemma NoBlocksYet(start: seq<byte>)
    ensures BlocksSoFar(false, [], [], start, start)
  {}

  lemma {:induction false} SumAppend(a: seq<nat>, b: seq<nat>)
    ensures Sum(a + b) == Sum(a) + Sum(b)
    decreases |a|
  {
    if a == [] {
      assert a + b == b;
    } else {
      assert (a + b)[1..] == a[1..] + b;
      SumAppend(a[1..], b);
    }
  }

  lemma NoBlock(eof: bool, got: seq<seq<byte>>, sizes: seq<nat>, start: seq<byte>, rest: seq<byte>,
                present: bool, size: nat)
    requires BlocksSoFar(eof, got, sizes, start, rest) && (eof || !present)
    ensures BlocksSoFar(eof, got, sizes + When(present, size), start, rest)
  {
    SumAppend(sizes, When(present, size));
    if !present { assert sizes + When(present, size) == sizes; }
  }

  lemma OneBlock(got: seq<seq<byte>>, sizes: seq<nat>, start: seq<byte>, rest: seq<byte>, size: nat)
    requires BlocksSoFar(false, got, sizes, start, rest)
    ensures |rest| < size ==> forall g, r :: BlocksSoFar(true, g, sizes + When(true, size), start, r)
    ensures forall buf, r :: |buf| == size && rest == buf + r ==>
              BlocksSoFar(false, got + [buf], sizes + When(true, size), start, r)
  {
    SumAppend(sizes, [size]);
    assert Sum([size]) == size;
    FlattenLength(got, sizes);
    forall buf, r | |buf| == size && rest == buf + r
      ensures BlocksSoFar(false, got + [buf], sizes + When(true, size), start, r)
    {
      FlattenAppend(got, [buf]);
      assert Flatten([buf]) == buf + [];
      assert Flatten(got) + (buf + r) == Flatten(got) + buf + r;
    }
  }

  lemma BlocksAre(h: Header, pidNr: uint32, z: seq<nat>)
    requires z == When(h.proc > 0, STATS_ONE_CPU_SIZE * (h.proc + 1)) +
                  When(Has(h.actflag, A_ONE_IRQ), STATS_ONE_IRQ_SIZE) +
                  When(pidNr != 0, PID_STATS_SIZE * pidNr) +
                  When(h.serial != 0, STATS_SERIAL_SIZE * h.serial) +
                  When(h.irqcpu != 0, STATS_IRQ_CPU_SIZE * (h.proc + 1) * h.irqcpu) +
                  When(h.iface != 0, STATS_NET_DEV_SIZE * h.iface) +
                  When(h.nrDisk != 0, DISK_STATS_SIZE * h.nrDisk)
    ensures z == PipeBlocks(h, pidNr)
  {}

  /** Blocks read one after the other are the blocks that cutting gives. */
  lemma AllBlocks(eof: bool, got: seq<seq<byte>>, sizes: seq<nat>, stSize: nat, b: seq<byte>, rest: seq<byte>)
    requires 0 < stSize <= |b| && BlocksSoFar(eof, got, sizes, b[stSize..], rest)
    ensures RecordIn(Frame(stSize, sizes), b) == if eof then None else Some(Record(b[..stSize], got))
    ensures !eof ==> rest == b[stSize + Sum(sizes)..]
  {
    if !eof {
      SplitFlatten(got, sizes);
      var n := stSize + Sum(sizes);
      var start := b[stSize..];
      assert b[stSize..n] == start[..Sum(sizes)] == Flatten(got);
      assert b[n..] == start[Sum(sizes)..] == rest;
    }
  }

  function Records(items: seq<Item>): nat {
    if items == [] then 0 else (if items[0].Rec? then 1 else 0) + Records(items[1..])
  }

  // ---------- how much of the stream sar takes ----------

  /** So many items, and whether the loop then comes to its own end. */
  datatype Take = Take(used: nat, finished: bool)

  function More(k: nat, t: Take): Take {
    Take(k + t.used, t.finished)
  }

  /** The records after the baseline that the main loop takes, each with the header announced by
      its mark: `n` of them, or without end if negative, or up to the first that is later than the
      end time (-e), which sets the count to 0. */
  function LoopTakes(items: seq<Item>, n: int, late: Record -> bool): (t: Take)
    ensures t.used <= |items|
    decreases |items|
  {
    if n == 0 then Take(0, true)
    else if items == [] || !items[0].Rec? then Take(0, false)
    else
      var r := items[0].r;
      var left := if late(r) then 0 else if n > 0 then n - 1 else n;
      if !HasType(r.stats, R_LAST_STATS) then More(1, LoopTakes(items[1..], left, late))
      else if |items| == 1 then Take(1, false)
      else More(2, LoopTakes(items[2..], left, late))
  }

  /** Header and baseline first. */
  function Taken(items: seq<Item>, count: int, late: Record -> bool): (t: Take)
    ensures t.used <= |items|
  {
    if |items| < 2 then Take(|items|, false) else More(2, LoopTakes(items[2..], count, late))
  }

  /** Without an end time the loop takes `n` records if there are so many, and all there is if not. */
  lemma {:induction false} LoopTakesCount(items: seq<Item>, n: int, late: Record -> bool, h: Header, pids: bool)
    requires InStep(WantRec(h, false), items, pids)
    requires forall r :: !late(r)
    ensures var t := LoopTakes(items, n, late);
            if t.finished then Records(items[..t.used]) == n else t.used == |items| && (n < 0 || Records(items) <= n)
    decreases |items|
  {
    if n != 0 && items != [] {
      var r, left := items[0].r, if n > 0 then n - 1 else n;
      if !HasType(r.stats, R_LAST_STATS) {
        LoopTakesCount(items[1..], left, late, h, pids);
        var k := LoopTakes(items[1..], left, late).used;
        assert items[..k + 1][1..] == items[1..][..k];
      } else if |items| > 1 {
        assert items[1..][0] == items[1] && items[1..][1..] == items[2..];
        LoopTakesCount(items[2..], left, late, items[1].h, pids);
        TwoMore(items, LoopTakes(items[2..], left, late).used);
      } else {
        assert items[1..] == [];
      }
    } else {
      assert items[..0] == [];
    }
  }

  lemma TwoMore(items: seq<Item>, k: nat)
    requires |items| >= 2 && items[0].Rec? && items[1].Hdr? && k <= |items| - 2
    ensures Records(items[..k + 2]) == 1 + Records(items[2..][..k]) && Records(items) == 1 + Records(items[2..])
  {
    var s := items[..k + 2];
    assert s[1..][0] == items[1] && s[1..][1..] == items[2..][..k];
    assert items[1..][0] == items[1] && items[1..][1..] == items[2..];
  }

  function RecordsIn(items: seq<Item>): seq<Record> {
    if items == [] then [] else (if items[0].Rec? then [items[0].r] else []) + RecordsIn(items[1..])
  }

  /** The last item is not a mark that promises a header. */
  predicate Closed(items: seq<Item>) {
    items == [] || var i := items[|items| - 1]; i.Rec? ==> !HasType(i.r.stats, R_LAST_STATS)
  }

  /** With an end time the loop takes records in order up to the first that is late, or `n` of them. It comes
      to its own end exactly there; else it has taken all there is. */
  lemma {:induction false} LoopTakesUntil(items: seq<Item>, n: int, late: Record -> bool, h: Header, pids: bool)
    requires InStep(WantRec(h, false), items, pids)
    ensures var t := LoopTakes(items, n, late);
            && TakesUntil(RecordsIn(items[..t.used]), n, late, t.finished, Closed(items))
            && (!t.finished ==> t.used == |items|)
    decreases |items|
  {
    hide LoopTakes, InStep, TakesUntil, Closed, RecordsIn;
    TakesStep(items, n, late);
    NoneTaken(n, late, Closed(items));
    if items != [] { InStepParts(items, h, pids); }
    if n != 0 && items != [] {
      var r, left := items[0].r, if late(items[0].r) then 0 else if n > 0 then n - 1 else n;
      if !HasType(r.stats, R_LAST_STATS) {
        LoopTakesUntil(items[1..], left, late, h, pids);
        var t := LoopTakes(items[1..], left, late);
        TookMore(items, 1, t.used);
        OneMoreTaken(r, RecordsIn(items[1..][..t.used]), n, late, t.finished, Closed(items[1..]));
      } else if |items| > 1 {
        LoopTakesUntil(items[2..], left, late, items[1].h, pids);
        var t := LoopTakes(items[2..], left, late);
        TookMore(items, 2, t.used);
        OneMoreTaken(r, RecordsIn(items[2..][..t.used]), n, late, t.finished, Closed(items[2..]));
      } else {
        OnlyMark(items, n, late);
      }
    } else {
      assert items[..0] == [];
    }
  }

  /** No more than `n` are taken, and none after a late one; the count is reached or the last one late if the
      loop comes to its own end, and only then. */
  predicate TakesUntil(took: seq<Record>, n: int, late: Record -> bool, finished: bool, closed: bool) {
    && (n >= 0 ==> |took| <= n)
    && (forall i :: 0 <= i < |took| - 1 ==> !late(took[i]))
    && (finished ==> |took| == n || (took != [] && late(took[|took| - 1])))
    && (!finished && closed ==> |took| != n && (took != [] ==> !late(took[|took| - 1])))
  }

  lemma NoneTaken(n: int, late: Record -> bool, closed: bool)
    ensures TakesUntil([], n, late, n == 0, closed) && RecordsIn([]) == []
  {}

  lemma OneMoreTaken(r: Record, took: seq<Record>, n: int, late: Record -> bool, finished: bool, closed: bool)
    requires n != 0 && TakesUntil(took, if late(r) then 0 else if n > 0 then n - 1 else n, late, finished, closed)
    ensures TakesUntil([r] + took, n, late, finished, closed)
  {
    var all := [r] + took;
    assert forall i :: 1 <= i < |all| ==> all[i] == took[i - 1];
  }

  lemma OnlyMark(items: seq<Item>, n: int, late: Record -> bool)
    requires n != 0 && |items| == 1 && items[0].Rec? && HasType(items[0].r.stats, R_LAST_STATS)
    ensures items[..1] == items && TakesUntil(RecordsIn(items), n, late, false, Closed(items))
  {
    assert RecordsIn(items[1..]) == [];
  }

  lemma TakesStep(items: seq<Item>, n: int, late: Record -> bool)
    ensures n == 0 || items == [] || !items[0].Rec? ==> LoopTakes(items, n, late) == Take(0, n == 0)
    ensures n != 0 && items != [] && items[0].Rec? ==>
              var r := items[0].r; var left := if late(r) then 0 else if n > 0 then n - 1 else n;
              LoopTakes(items, n, late) ==
              if !HasType(r.stats, R_LAST_STATS) then More(1, LoopTakes(items[1..], left, late))
              else if |items| == 1 then Take(1, false)
              else More(2, LoopTakes(items[2..], left, late))
  {}

  lemma InStepParts(items: seq<Item>, h: Header, pids: bool)
    requires InStep(WantRec(h, false), items, pids) && items != []
    ensures items[0].Rec?
    ensures !HasType(items[0].r.stats, R_LAST_STATS) ==> InStep(WantRec(h, false), items[1..], pids)
    ensures HasType(items[0].r.stats, R_LAST_STATS) && |items| > 1 ==>
              items[1].Hdr? && InStep(WantRec(items[1].h, false), items[2..], pids)
  {
    if |items| > 1 { assert items[1..][0] == items[1] && items[1..][1..] == items[2..]; }
  }

  lemma TookMore(items: seq<Item>, k: nat, used: nat)
    requires (k == 1 || k == 2) && k <= |items| && used <= |items| - k && items[0].Rec?
    requires if k == 2 then items[1].Hdr? else !HasType(items[0].r.stats, R_LAST_STATS)
    ensures RecordsIn(items[..k + used]) == [items[0].r] + RecordsIn(items[k..][..used])
    ensures Closed(items[k..]) <==> Closed(items)
  {
    var s := items[..k + used];
    assert s[1..] == items[1..][..k - 1 + used];
    if k == 2 {
      assert s[1..][0] == items[1] && s[1..][1..] == items[2..][..used];
      assert RecordsIn(s[1..]) == [] + RecordsIn(items[2..][..used]);
    }
  }

  // ---------- sar's main loop ----------

  /** The items sar has taken so far and what it would read in the rest of the pipe. */
  ghost predicate Following(p: Pipe, all: seq<Item>, got: seq<Item>, pids: bool)
    reads p
  {
    p.Valid() && all == got + ReadItems(End(START, got), p.Rest(), pids)
  }

  /** sar.c: read_stats, the reading of the header, of the baseline record and then of `count`
      records (without end if negative). For every chunking of the pipe sar takes exactly the
      items that its bytes stand for, up to the one at which its count or its end time is
      reached; in the latter case it has finished, else it exits at the end of the input. */
  method ReadStats(p: Pipe, count: int, late: Record -> bool, pids: bool) returns (got: seq<Item>, finished: bool)
    requires p.Valid() && p.pos == 0 && count != 0
    modifies p
    ensures var all := ReadItems(START, p.data, pids); var t := Taken(all, count, late);
            got == all[..t.used] && finished == t.finished
    ensures !finished ==> got == ReadItems(START, p.data, pids)
  {
    hide Next, PipeBlocks, ReadItems, LoopTakes;
    got, finished := [], false;
    ghost var all := ReadItems(START, p.data, pids);
    assert p.data[0..] == p.data;
    var h, ok := TakeHeader(p, all, got, pids);
    if !ok { return; }
    got := got + [Hdr(h)];
    var r;
    r, ok := TakeRecord(p, all, got, h, pids);
    if !ok { return; }
    got := got + [Rec(r)];
    var n := count;
    ghost var goal := More(2, LoopTakes(all[2..], n, late));
    while n != 0
      invariant Following(p, all, got, pids) && 2 <= |got|
      invariant End(START, got) == WantRec(h, false) && h.stSize > 0
      invariant More(|got|, LoopTakes(all[|got|..], n, late)) == goal
      decreases |all| - |got|
    {
      got, h, n, ok := TakeTurn(p, all, got, h, n, late, pids, goal);
      if !ok { return; }
    }
    LoopStep(all, |got|, n, late);
    finished := true;
  }

  /** One turn of the main loop: a record and, after a mark, a header. */
  method TakeTurn(p: Pipe, ghost all: seq<Item>, got0: seq<Item>, h0: Header, n0: int, late: Record -> bool,
                  pids: bool, ghost goal: Take)
    returns (got: seq<Item>, h: Header, n: int, ok: bool)
    requires Following(p, all, got0, pids) && End(START, got0) == WantRec(h0, false) && h0.stSize > 0 && n0 != 0
    requires More(|got0|, LoopTakes(all[|got0|..], n0, late)) == goal
    modifies p
    ensures |got| >= |got0| && (ok ==> |got| > |got0|)
    ensures ok ==> Following(p, all, got, pids) && End(START, got) == WantRec(h, false) && h.stSize > 0
    ensures ok ==> More(|got|, LoopTakes(all[|got|..], n, late)) == goal
    ensures !ok ==> got == all && goal == Take(|got|, false)
  {
    hide Next, PipeBlocks, ReadItems, LoopTakes, End;
    LoopStep(all, |got0|, n0, late);
    var r;
    got, h, n := got0, h0, n0;
    r, ok := TakeRecord(p, all, got, h, pids);
    if !ok { return; }
    got := got + [Rec(r)];
    n := if late(r) then 0 else n;
    if HasType(r.stats, R_LAST_STATS) {
      h, ok := TakeHeader(p, all, got, pids);
      if !ok { return; }
      got := got + [Hdr(h)];
    }
    n := if n > 0 then n - 1 else n;
  }

  /** One turn of the loop, or its end, at position k. */
  lemma LoopStep(all: seq<Item>, k: nat, n: int, late: Record -> bool)
    requires k <= |all|
    ensures n == 0 || k == |all| ==> LoopTakes(all[k..], n, late) == Take(0, n == 0)
    ensures n != 0 && k < |all| && all[k].Rec? ==>
              var r := all[k].r; var left := if late(r) then 0 else if n > 0 then n - 1 else n;
              LoopTakes(all[k..], n, late) ==
              if !HasType(r.stats, R_LAST_STATS) then More(1, LoopTakes(all[k + 1..], left, late))
              else if k + 1 == |all| then Take(1, false)
              else More(2, LoopTakes(all[k + 2..], left, late))
  {
    if k < |all| {
      assert all[k..][0] == all[k] && all[k..][1..] == all[k + 1..];
      assert |all[k..]| > 1 ==> all[k..][2..] == all[k + 2..];
    }
  }

  method TakeHeader(p: Pipe, ghost all: seq<Item>, ghost got: seq<Item>, pids: bool) returns (h: Header, ok: bool)
    requires Following(p, all, got, pids) && End(START, got).WantHdr?
    modifies p
    ensures ok <==> got < all
    ensures !ok ==> got == all
    ensures ok ==> all[|got|] == Hdr(h) && h.stSize > 0 && Following(p, all, got + [Hdr(h)], pids)
    ensures ok ==> End(START, got + [Hdr(h)]) == WantRec(h, End(START, got).first)
  {
    hide PipeBlocks, HeaderIn, RecordIn, End;
    HeaderOk(p.Rest());
    var r := p.ReadHeaderData();
    match r {
      case None => h, ok := NO_HEADER, false;
      case Some(hdr) =>
        h, ok := hdr, true;
        InStepAppend(START, got, Hdr(h), pids);
        Shift(got, Hdr(h), ReadItems(WantRec(h, End(START, got).first), p.Rest(), pids));
    }
  }

  const NO_HEADER := Header(seq(8, _ => 0), 0, 0, 0, 0, 0, 0, 0, 0, 0, seq(200, _ => 0))

  lemma HeaderOk(b: seq<byte>)
    ensures HeaderIn(b).Some? ==> HeaderIn(b).value.stSize > 0 && |b| >= FILE_HDR_SIZE
  {
    hide DecodeHeader;
  }

  lemma Shift(got: seq<Item>, i: Item, rest: seq<Item>)
    ensures got + ([i] + rest) == got + [i] + rest
    ensures got < got + ([i] + rest) && (got + ([i] + rest))[|got|] == i
  {}

  method TakeRecord(p: Pipe, ghost all: seq<Item>, ghost got: seq<Item>, h: Header, pids: bool)
    returns (r: Record, ok: bool)
    requires Following(p, all, got, pids) && h.stSize > 0
    requires End(START, got).WantRec? && End(START, got).h == h
    modifies p
    ensures ok <==> got < all
    ensures !ok ==> got == all
    ensures ok ==> all[|got|] == Rec(r) && Following(p, all, got + [Rec(r)], pids)
    ensures ok ==> var more := End(START, got).first || !HasType(r.stats, R_LAST_STATS);
                   End(START, got + [Rec(r)]) == if more then WantRec(h, false) else WantHdr(false)
  {
    hide PipeBlocks, HeaderIn, RecordIn, End;
    var o := p.ReadStatBunch(h, if pids then h.nrPid else 0);
    match o {
      case None => r, ok := Record([], []), false;
      case Some(rec) =>
        r, ok := rec, true;
        InStepAppend(START, got, Rec(r), pids);
        Shift(got, Rec(r), ReadItems(Next(End(START, got), Rec(r)), p.Rest(), pids));
    }
  }
}
