/** Wireless events: a stream of length-tagged events, each with one or more values of a type
    that only its command tells (iwlib.c: iw_init_event_stream, iw_extract_event_stream). */
module EventStream {
  import opened Bytes

  datatype HeaderType = NullType | CharType | UintType | FreqType | AddrType | PointType | ParamType | QualType

  /** struct iw_ioctl_description. */
  datatype Description = Description(header: HeaderType, tokenSize: uint16, minTokens: uint16, maxTokens: uint16,
                                     noMax: bool)

  /** Sizes that depend on the machine (IW_EV_LCP_LEN, IW_EV_POINT_OFF and the part of struct
      iw_point after the pointer), the version of the extensions, and the command tables. */
  datatype Params = Params(lcp: nat, pointOff: nat, pointLen: nat, we: int, descr: map<uint16, Description>)

  predicate ValidParams(p: Params) {
    p.lcp >= 4 && p.pointOff > 0 && p.pointLen >= 4
  }

  function TypeOf(p: Params, cmd: uint16): HeaderType {
    if cmd in p.descr then p.descr[cmd].header else NullType
  }

  /** Size of one value without the event prefix; 0 for types that are not known. Before WE-19
      the pointer of an iw_point was part of the stream. */
  function FixedSize(p: Params, t: HeaderType): nat {
    match t
    case NullType => 0
    case CharType => 16
    case UintType => 4
    case FreqType => 8
    case AddrType => 16
    case PointType => if p.we <= 18 then p.pointLen + p.pointOff else p.pointLen
    case ParamType => 8
    case QualType => 4
  }

  /** An extracted event. A payload is what is found behind the pointer handed to the caller. */
  datatype Item =
    | Plain(cmd: uint16, value: seq<byte>)
    | Point(cmd: uint16, length: uint16, flags: uint16, payload: Option<seq<byte>>)

  /** struct stream_descr over `data`; value is the next value within the current event. */
  datatype Pos = Pos(current: nat, value: Option<nat>)

  datatype StepResult = StepResult(ret: int, item: Option<Item>, pos: Pos)

  predicate PosOk(data: seq<byte>, s: Pos) {
    s.value.Some? ==> s.value.value <= |data|
  }

  /** The payload of an iw_point event, or None if there is none or it is not to be trusted. */
  function PayloadOf(d: Description, length: uint16, extra: nat, tail: seq<byte>): Option<seq<byte>> {
    var tokens := length * d.tokenSize;
    if extra == 0 || tokens > extra || (length > d.maxTokens && !d.noMax) || length < d.minTokens then None
    else Some(if tokens <= |tail| then tail[..tokens] else tail)
  }

  /** One call of iw_extract_event_stream. */
  function Step(p: Params, data: seq<byte>, s: Pos): (r: StepResult)
    requires ValidParams(p) && PosOk(data, s)
    ensures PosOk(data, r.pos)
    ensures r.ret > 0 ==> Smaller(data, r.pos, s)
  {
    if s.current + p.lcp > |data| then StepResult(0, None, s)
    else
      var len, cmd := FromU16(data[s.current..s.current + 2]), FromU16(data[s.current + 2..s.current + 4]);
      if len <= p.lcp then StepResult(-1, None, s)
      else
        var t, next := TypeOf(p, cmd), s.(current := s.current + len);
        var size := FixedSize(p, t);
        var pointer := if s.value.Some? then s.value.value else s.current + p.lcp;
        if size == 0 then StepResult(2, None, next)
        else if pointer + size > |data| then StepResult(-2, None, next)
        else
          var fixed, after := data[pointer..pointer + size], pointer + size;
          if t.PointType? then
            var off := if p.we <= 18 then p.pointOff else 0;
            var length, flags := FromU16(fixed[off..off + 2]), FromU16(fixed[off + 2..off + 4]);
            var extra := (len - (size + p.lcp)) % 0x1_0000_0000;
            StepResult(1, Some(Point(cmd, length, flags, PayloadOf(p.descr[cmd], length, extra, data[after..]))), next)
          else if after + size <= s.current + len then
            StepResult(1, Some(Plain(cmd, fixed)), s.(value := Some(after)))
          else
            StepResult(1, Some(Plain(cmd, fixed)), Pos(s.current + len, None))
  }

  function BytesAfterCurrent(data: seq<byte>, s: Pos): nat {
    if s.current <= |data| then |data| - s.current else 0
  }

  function BytesAfterValue(data: seq<byte>, s: Pos): nat
    requires PosOk(data, s)
  {
    match s.value
    case None => |data| + 1
    case Some(v) => |data| - v
  }

  /** Every event that is taken uses up part of the stream: of what comes after the current
      event or else of what comes after the current value. */
  predicate Smaller(data: seq<byte>, a: Pos, b: Pos)
    requires PosOk(data, a) && PosOk(data, b)
  {
    || BytesAfterCurrent(data, a) < BytesAfterCurrent(data, b)
    || (BytesAfterCurrent(data, a) == BytesAfterCurrent(data, b) && BytesAfterValue(data, a) < BytesAfterValue(data, b))
  }

  /** The loop around it, as in scanning: until the result is not positive. */
  function Extracted(p: Params, data: seq<byte>, s: Pos): seq<Item>
    requires ValidParams(p) && PosOk(data, s)
    decreases BytesAfterCurrent(data, s), BytesAfterValue(data, s)
  {
    var r := Step(p, data, s);
    if r.ret <= 0 then []
    else ItemIn(r) + Extracted(p, data, r.pos)
  }

  function ItemIn(r: StepResult): seq<Item> {
    match r.item
    case Some(i) => [i]
    case None => []
  }

  // ---------- events as the kernel writes them ----------

  /** Several values and less than one more of padding; a point with its payload, the pointer that
      older versions put before it and its padding; or a command nobody knows. */
  datatype Event =
    | Values(cmd: uint16, vals: seq<seq<byte>>, pad: seq<byte>)
    | PointEvent(cmd: uint16, length: uint16, flags: uint16, fill: seq<byte>, pointer: seq<byte>, payload: seq<byte>)
    | Unknown(cmd: uint16, body: seq<byte>)

  function Body(p: Params, e: Event): seq<byte> {
    match e
    case Values(_, vals, pad) => Flatten(vals) + pad
    case PointEvent(_, length, flags, fill, pointer, payload) =>
      (if p.we <= 18 then pointer else []) + (U16(length) + U16(flags) + fill) + payload
    case Unknown(_, body) => body
  }

  predicate WellFormed(p: Params, e: Event) {
    && 0 < |Body(p, e)| && p.lcp + |Body(p, e)| < 0x1_0000
    && match e
       case Values(cmd, vals, pad) =>
         var size := FixedSize(p, TypeOf(p, cmd));
         && !TypeOf(p, cmd).PointType? && size > 0 && vals != [] && |pad| < size
         && forall i :: 0 <= i < |vals| ==> |vals[i]| == size
       case PointEvent(cmd, length, flags, fill, pointer, payload) =>
         TypeOf(p, cmd).PointType? && |fill| == p.pointLen - 4 && |pointer| == p.pointOff
       case Unknown(cmd, body) => TypeOf(p, cmd).NullType?
  }

  function EncodeEvent(p: Params, e: Event): seq<byte>
    requires ValidParams(p) && WellFormed(p, e)
  {
    U16(p.lcp + |Body(p, e)|) + U16(e.cmd) + seq(p.lcp - 4, _ => 0) + Body(p, e)
  }

  function EncodeEvents(p: Params, es: seq<Event>): seq<byte>
    requires ValidParams(p) && forall i :: 0 <= i < |es| ==> WellFormed(p, es[i])
  {
    if es == [] then [] else EncodeEvent(p, es[0]) + EncodeEvents(p, es[1..])
  }

  /** What the receiver must see of an event, whatever the version. */
  function Plains(cmd: uint16, vals: seq<seq<byte>>): seq<Item> {
    if vals == [] then [] else [Plain(cmd, vals[0])] + Plains(cmd, vals[1..])
  }

  /** A point has as many tokens as its description allows, and they are all there. */
  predicate Trustworthy(d: Description, length: uint16, payload: seq<byte>) {
    && payload != [] && length * d.tokenSize <= |payload|
    && d.minTokens <= length && (d.noMax || length <= d.maxTokens)
  }

  function Meaning(descr: map<uint16, Description>, e: Event): seq<Item>
    requires e.PointEvent? ==> e.cmd in descr
  {
    match e
    case Values(cmd, vals, _) => Plains(cmd, vals)
    case PointEvent(cmd, length, flags, _, _, payload) =>
      var ok := Trustworthy(descr[cmd], length, payload);
      [Point(cmd, length, flags, if ok then Some(payload[..length * descr[cmd].tokenSize]) else None)]
    case Unknown(_, _) => []
  }

  function Meanings(descr: map<uint16, Description>, es: seq<Event>): seq<Item>
    requires forall i :: 0 <= i < |es| && es[i].PointEvent? ==> es[i].cmd in descr
  {
    if es == [] then [] else Meaning(descr, es[0]) + Meanings(descr, es[1..])
  }

  /** The header of an event in the middle of a stream. */
  lemma HeaderAt(p: Params, data: seq<byte>, at: nat, e: Event, rest: seq<byte>)
    requires ValidParams(p) && WellFormed(p, e) && at <= |data|
    requires data[at..] == EncodeEvent(p, e) + rest
    ensures at + p.lcp + |Body(p, e)| <= |data|
    ensures FromU16(data[at..at + 2]) == p.lcp + |Body(p, e)| && FromU16(data[at + 2..at + 4]) == e.cmd
    ensures data[at + p.lcp..] == Body(p, e) + rest
    ensures data[at + p.lcp + |Body(p, e)|..] == rest
  {
    hide FromU16, U16, Body;
    var len, body := p.lcp + |Body(p, e)|, Body(p, e);
    DecodeU16(len);
    DecodeU16(e.cmd);
    var tail := data[at..];
    assert tail[..2] == U16(len) && tail[2..4] == U16(e.cmd);
    assert data[at..at + 2] == tail[..2] && data[at + 2..at + 4] == tail[2..4];
    assert tail[p.lcp..] == body + rest;
    assert data[at + p.lcp..] == tail[p.lcp..];
    assert data[at + len..] == tail[p.lcp..][|body|..];
  }

  /** Commands that are not known are passed over. */
  lemma UnknownRead(p: Params, data: seq<byte>, at: nat, e: Event, rest: seq<byte>)
    requires ValidParams(p) && WellFormed(p, e) && e.Unknown? && at <= |data|
    requires data[at..] == EncodeEvent(p, e) + rest
    ensures at + p.lcp + |Body(p, e)| <= |data|
    ensures Extracted(p, data, Pos(at, None)) == Extracted(p, data, Pos(at + p.lcp + |Body(p, e)|, None))
  {
    hide FromU16, EncodeEvent;
    HeaderAt(p, data, at, e, rest);
    var r := Step(p, data, Pos(at, None));
    assert r == StepResult(2, None, Pos(at + p.lcp + |Body(p, e)|, None));
    assert ItemIn(r) == [];
  }

  /** A point is read with its length, flags and payload, in the old layout and in the new. */
  lemma PointRead(p: Params, data: seq<byte>, at: nat, e: Event, rest: seq<byte>)
    requires ValidParams(p) && WellFormed(p, e) && e.PointEvent? && at <= |data|
    requires data[at..] == EncodeEvent(p, e) + rest
    ensures at + p.lcp + |Body(p, e)| <= |data|
    ensures Extracted(p, data, Pos(at, None)) ==
            Meaning(p.descr, e) + Extracted(p, data, Pos(at + p.lcp + |Body(p, e)|, None))
  {
    hide EncodeEvent, Extracted, Trustworthy, Body, Step;
    HeaderAt(p, data, at, e, rest);
    PointStep(p, data, at, e, rest);
    ExtractedStep(p, data, Pos(at, None));
  }

  lemma PointStep(p: Params, data: seq<byte>, at: nat, e: Event, rest: seq<byte>)
    requires ValidParams(p) && WellFormed(p, e) && e.PointEvent? && at <= |data|
    requires data[at..] == EncodeEvent(p, e) + rest
    ensures Step(p, data, Pos(at, None)) ==
            StepResult(1,
                       Some(Meaning(p.descr, e)[0]),
                       Pos(at + p.lcp + |Body(p, e)|, None))
  {
    hide FromU16, U16, EncodeEvent, PayloadOf, Trustworthy, Body;
    HeaderAt(p, data, at, e, rest);
    PointBytes(p, data, at + p.lcp, e, rest);
    PayloadCut(p.descr[e.cmd], e.length, e.payload, rest);
    var size := FixedSize(p, PointType);
    assert (p.lcp + |Body(p, e)| - (size + p.lcp)) % 0x1_0000_0000 == |e.payload|;
  }

  /** Where the parts of a point are, in either layout. */
  lemma PointBytes(p: Params, data: seq<byte>, start: nat, e: Event, rest: seq<byte>)
    requires ValidParams(p) && WellFormed(p, e) && e.PointEvent? && start <= |data|
    requires data[start..] == Body(p, e) + rest
    ensures var size := FixedSize(p, PointType); var off := if p.we <= 18 then p.pointOff else 0;
            && start + size <= |data|
            && FromU16(data[start..start + size][off..off + 2]) == e.length
            && FromU16(data[start..start + size][off + 2..off + 4]) == e.flags
            && data[start + size..] == e.payload + rest
            && |Body(p, e)| == size + |e.payload|
  {
    hide FromU16, U16;
    var size, off, tail := FixedSize(p, PointType), if p.we <= 18 then p.pointOff else 0, data[start..];
    var pre, lb, fb := if p.we <= 18 then e.pointer else [], U16(e.length), U16(e.flags);
    var fixed := pre + (lb + (fb + e.fill));
    assert lb + fb + e.fill == lb + (fb + e.fill);
    assert fixed == pre + lb + (fb + e.fill);
    PointSplit(fixed, e.payload, rest, tail);
    Middle(pre, lb, fb + e.fill);
    Middle(pre + lb, fb, e.fill);
    CutTwice(data, start, 0, size);
    DecodeU16(e.length);
    DecodeU16(e.flags);
  }

  lemma PointSplit(fixed: seq<byte>, payload: seq<byte>, rest: seq<byte>, tail: seq<byte>)
    requires tail == fixed + payload + rest
    ensures tail[..|fixed|] == fixed && tail[|fixed|..] == payload + rest
  {}

  /** The payload is handed over, all its tokens and no byte more, exactly if it is trustworthy. */
  lemma PayloadCut(d: Description, length: uint16, payload: seq<byte>, rest: seq<byte>)
    ensures PayloadOf(d, length, |payload|, payload + rest) ==
            if Trustworthy(d, length, payload) then Some(payload[..length * d.tokenSize]) else None
  {
    var tokens := length * d.tokenSize;
    if tokens <= |payload| {
      assert (payload + rest)[..tokens] == payload[..tokens];
    }
  }

  lemma ExtractedStep(p: Params, data: seq<byte>, s: Pos)
    requires ValidParams(p) && PosOk(data, s)
    ensures var r := Step(p, data, s);
            Extracted(p, data, s) == if r.ret <= 0 then [] else ItemIn(r) + Extracted(p, data, r.pos)
  {
    hide Step;
  }

  /** Reading goes through the values of an event one by one. */
  lemma {:induction false} ValuesRead(p: Params, data: seq<byte>, at: nat, e: Event, rest: seq<byte>, k: nat)
    requires ValidParams(p) && WellFormed(p, e) && e.Values? && at <= |data|
    requires data[at..] == EncodeEvent(p, e) + rest
    requires k < |e.vals|
    ensures var v := at + p.lcp + |Flatten(e.vals[..k])|; var len := p.lcp + |Body(p, e)|;
            && at + len <= |data| && v <= |data|
            && Extracted(p, data, Pos(at, if k == 0 then None else Some(v))) ==
               Plains(e.cmd, e.vals[k..]) + Extracted(p, data, Pos(at + len, None))
    decreases |e.vals| - k
  {
    hide FromU16, EncodeEvent, Extracted, Body, Step, Plains, Flatten;
    HeaderAt(p, data, at, e, rest);
    ValueBytes(p, data, at, e, rest, k);
    ValueStep(p, data, at, e, rest, k);
    PlainsStep(e.cmd, e.vals, k);
    var len, v := p.lcp + |Body(p, e)|, at + p.lcp + |Flatten(e.vals[..k])|;
    ExtractedStep(p, data, Pos(at, if k == 0 then None else Some(v)));
    if k + 1 < |e.vals| {
      ValuesRead(p, data, at, e, rest, k + 1);
    }
  }

  lemma PlainsStep(cmd: uint16, vals: seq<seq<byte>>, k: nat)
    requires k < |vals|
    ensures Plains(cmd, vals[k..]) == [Plain(cmd, vals[k])] + Plains(cmd, vals[k + 1..])
    ensures k + 1 == |vals| ==> Plains(cmd, vals[k..]) == [Plain(cmd, vals[k])]
  {
    assert vals[k..][0] == vals[k] && vals[k..][1..] == vals[k + 1..];
  }

  /** One value is taken; the next position is the next value, or the next event after the last. */
  lemma ValueStep(p: Params, data: seq<byte>, at: nat, e: Event, rest: seq<byte>, k: nat)
    requires ValidParams(p) && WellFormed(p, e) && e.Values? && at <= |data|
    requires data[at..] == EncodeEvent(p, e) + rest
    requires k < |e.vals|
    ensures var v := at + p.lcp + |Flatten(e.vals[..k])|; var len := p.lcp + |Body(p, e)|;
            && v <= |data|
            && Step(p, data, Pos(at, if k == 0 then None else Some(v))) ==
               StepResult(1, Some(Plain(e.cmd, e.vals[k])),
                          if k + 1 < |e.vals| then Pos(at, Some(at + p.lcp + |Flatten(e.vals[..k + 1])|))
                          else Pos(at + len, None))
  {
    hide FromU16, EncodeEvent, Body, Flatten;
    HeaderAt(p, data, at, e, rest);
    ValueBytes(p, data, at, e, rest, k);
  }

  lemma ValueBytes(p: Params, data: seq<byte>, at: nat, e: Event, rest: seq<byte>, k: nat)
    requires ValidParams(p) && WellFormed(p, e) && e.Values? && at <= |data|
    requires data[at..] == EncodeEvent(p, e) + rest
    requires k < |e.vals|
    ensures var size := FixedSize(p, TypeOf(p, e.cmd)); var v := at + p.lcp + |Flatten(e.vals[..k])|;
            var end := at + p.lcp + |Body(p, e)|;
            && v + size <= |data| && data[v..v + size] == e.vals[k]
            && (k == 0 ==> v == at + p.lcp)
            && at + p.lcp + |Flatten(e.vals[..k + 1])| == v + size
            && (v + size + size <= end <==> k + 1 < |e.vals|)
  {
    hide FromU16, EncodeEvent, Flatten;
    HeaderAt(p, data, at, e, rest);
    var size, before := FixedSize(p, TypeOf(p, e.cmd)), Flatten(e.vals[..k]);
    ValueAt(e.vals, k, size);
    var more, tail := Flatten(e.vals[k + 1..]), data[at + p.lcp..];
    Regroup(before, e.vals[k], more, e.pad, rest);
    Middle(before, e.vals[k], more + e.pad + rest);
    CutTwice(data, at + p.lcp, |before|, |before| + size);
  }

  lemma Regroup(a: seq<byte>, b: seq<byte>, c: seq<byte>, d: seq<byte>, e: seq<byte>)
    ensures a + (b + c) + d + e == a + (b + (c + d + e))
  {}

  lemma ValueAt(vals: seq<seq<byte>>, k: nat, size: nat)
    requires k < |vals| && forall i :: 0 <= i < |vals| ==> |vals[i]| == size
    ensures Flatten(vals) == Flatten(vals[..k]) + (vals[k] + Flatten(vals[k + 1..]))
    ensures |Flatten(vals[..k + 1])| == |Flatten(vals[..k])| + size
    ensures if k + 1 < |vals| then |Flatten(vals[k + 1..])| >= size else Flatten(vals[k + 1..]) == []
    ensures k == 0 ==> Flatten(vals[..k]) == []
  {
    FlattenAppend(vals[..k], vals[k..]);
    assert vals == vals[..k] + vals[k..];
    assert vals[k..][1..] == vals[k + 1..];
    FlattenAppend(vals[..k], [vals[k]]);
    assert vals[..k + 1] == vals[..k] + [vals[k]];
    assert Flatten([vals[k]]) == vals[k] + [];
  }

  /** Events at the front of a stream are recovered in full and in order, value by value, unknown
      commands left out, from either layout, whatever comes after them. */
  lemma {:induction false} EventsThen(p: Params, data: seq<byte>, at: nat, es: seq<Event>, tail: seq<byte>)
    requires ValidParams(p) && at <= |data|
    requires forall i :: 0 <= i < |es| ==> WellFormed(p, es[i])
    requires data[at..] == EncodeEvents(p, es) + tail
    ensures |tail| <= |data|
    ensures Extracted(p, data, Pos(at, None)) ==
            Meanings(p.descr, es) + Extracted(p, data, Pos(|data| - |tail|, None))
    decreases |es|
  {
    hide EncodeEvent, Extracted, Meaning, WellFormed, Body, Step;
    if es == [] {
      assert at == |data| - |tail|;
      assert [] + Extracted(p, data, Pos(at, None)) == Extracted(p, data, Pos(at, None));
    } else {
      var e, rest := es[0], EncodeEvents(p, es[1..]) + tail;
      assert EncodeEvents(p, es) + tail == EncodeEvent(p, e) + rest;
      var next := at + p.lcp + |Body(p, e)|;
      HeaderAt(p, data, at, e, rest);
      EventRead(p, data, at, e, rest);
      EventsThen(p, data, next, es[1..], tail);
    }
  }

  lemma EventsRead(p: Params, data: seq<byte>, at: nat, es: seq<Event>)
    requires ValidParams(p) && at <= |data|
    requires forall i :: 0 <= i < |es| ==> WellFormed(p, es[i])
    requires data[at..] == EncodeEvents(p, es)
    ensures Extracted(p, data, Pos(at, None)) == Meanings(p.descr, es)
  {
    hide Extracted, Meanings, EncodeEvents;
    assert data[at..] == EncodeEvents(p, es) + [];
    EventsThen(p, data, at, es, []);
    NothingLeft(p, data, |data|);
    assert Meanings(p.descr, es) + [] == Meanings(p.descr, es);
  }

  /** A tail that is no event: too short for a header, with a length that covers no more than the
      header, or too short for the first value of a known command. */
  predicate Broken(p: Params, tail: seq<byte>)
    requires ValidParams(p)
  {
    || |tail| < p.lcp
    || FromU16(tail[..2]) <= p.lcp
    || (var size := FixedSize(p, TypeOf(p, FromU16(tail[2..4]))); size > 0 && |tail| < p.lcp + size)
  }

  /** A stream that is damaged or cut off there yields all events before, and then nothing. */
  lemma BrokenEnds(p: Params, es: seq<Event>, tail: seq<byte>)
    requires ValidParams(p) && Broken(p, tail)
    requires forall i :: 0 <= i < |es| ==> WellFormed(p, es[i])
    ensures Extracted(p, EncodeEvents(p, es) + tail, Pos(0, None)) == Meanings(p.descr, es)
  {
    hide Extracted, Meanings, EncodeEvents, Broken;
    var data := EncodeEvents(p, es) + tail;
    assert data[0..] == data;
    EventsThen(p, data, 0, es, tail);
    assert data[|data| - |tail|..] == tail;
    NothingRead(p, data, |data| - |tail|);
    assert Meanings(p.descr, es) + [] == Meanings(p.descr, es);
  }

  lemma NothingRead(p: Params, data: seq<byte>, at: nat)
    requires ValidParams(p) && at <= |data| && Broken(p, data[at..])
    ensures Extracted(p, data, Pos(at, None)) == []
  {
    hide FromU16, Extracted;
    var tail := data[at..];
    if |tail| >= p.lcp {
      CutTwice(data, at, 0, 2);
      CutTwice(data, at, 2, 4);
    }
    ExtractedStep(p, data, Pos(at, None));
  }

  lemma NothingLeft(p: Params, data: seq<byte>, at: nat)
    requires ValidParams(p) && at == |data|
    ensures Extracted(p, data, Pos(at, None)) == []
  {}

  lemma EventRead(p: Params, data: seq<byte>, at: nat, e: Event, rest: seq<byte>)
    requires ValidParams(p) && WellFormed(p, e) && at <= |data|
    requires data[at..] == EncodeEvent(p, e) + rest
    ensures e.PointEvent? ==> e.cmd in p.descr
    ensures at + p.lcp + |Body(p, e)| <= |data|
    ensures Extracted(p, data, Pos(at, None)) ==
            Meaning(p.descr, e) + Extracted(p, data, Pos(at + p.lcp + |Body(p, e)|, None))
  {
    hide EncodeEvent, Extracted, Step, Body;
    match e
    case Values(_, vals, _) =>
      ValuesRead(p, data, at, e, rest, 0);
      assert vals[0..] == vals;
    case PointEvent(_, _, _, _, _, _) =>
      PointRead(p, data, at, e, rest);
    case Unknown(_, _) =>
      UnknownRead(p, data, at, e, rest);
      assert [] + Extracted(p, data, Pos(at + p.lcp + |Body(p, e)|, None)) ==
          Extracted(p, data, Pos(at + p.lcp + |Body(p, e)|, None));
  }

  /** The same events written by an old and by a new version of the extensions are the same to
      the receiver. */
  lemma VersionsAgree(p: Params, we: int, es: seq<Event>)
    requires ValidParams(p)
    requires forall i :: 0 <= i < |es| ==> WellFormed(p, es[i]) && WellFormed(p.(we := we), es[i])
    ensures Extracted(p, EncodeEvents(p, es), Pos(0, None)) ==
            Extracted(p.(we := we), EncodeEvents(p.(we := we), es), Pos(0, None))
  {
    var q := p.(we := we);
    var a, b := EncodeEvents(p, es), EncodeEvents(q, es);
    assert a[0..] == a && b[0..] == b;
    EventsRead(p, a, 0, es);
    EventsRead(q, b, 0, es);
  }

  class Stream {
    const data: seq<byte>
    var current: nat
    var value: Option<nat>

    ghost predicate Valid()
      reads this
    {
      PosOk(data, Position())
    }

    ghost function Position(): Pos
      reads this
    {
      Pos(current, value)
    }

    /** iwlib.c: iw_init_event_stream. */
    constructor (data: seq<byte>)
      ensures this.data == data && Valid() && Position() == Pos(0, None)
    {
      this.data := data;
      current, value := 0, None;
    }

    /** iwlib.c: iw_extract_event_stream. No byte outside the stream is read for the header or
        for the fixed part of a value. */
    method Extract(p: Params) returns (ret: int, item: Option<Item>)
      requires ValidParams(p) && Valid()
      modifies this
      ensures Valid()
      ensures StepResult(ret, item, Position()) == Step(p, data, old(Position()))
    {
      hide FromU16;
      item := None;
      if current + p.lcp > |data| {
        return 0, None;
      }
      var len, cmd := FromU16(data[current..current + 2]), FromU16(data[current + 2..current + 4]);
      if len <= p.lcp {
        return -1, None;
      }
      var t := NullType;
      if cmd in p.descr {
        t := p.descr[cmd].header;
      }
      var size := FixedSize(p, t);
      if size == 0 {
        current := current + len;
        return 2, None;
      }
      var pointer := if value.Some? then value.value else current + p.lcp;
      if pointer + size > |data| {
        current := current + len;
        return -2, None;
      }
      var fixed := data[pointer..pointer + size];
      pointer := pointer + size;
      if t.PointType? {
        var off := if p.we <= 18 then p.pointOff else 0;
        var length, flags := FromU16(fixed[off..off + 2]), FromU16(fixed[off + 2..off + 4]);
        var extra := (len - (size + p.lcp)) % 0x1_0000_0000;
        item := Some(Point(cmd, length, flags, PayloadOf(p.descr[cmd], length, extra, data[pointer..])));
        current := current + len;
      } else {
        item := Some(Plain(cmd, fixed));
        if pointer + size <= current + len {
          value := Some(pointer);
        } else {
          value := None;
          current := current + len;
        }
      }
      ret := 1;
    }

    /** The loop of iw_process_scan. It ends on every stream of bytes, well formed or not. */
    method ExtractAll(p: Params) returns (items: seq<Item>)
      requires ValidParams(p) && Valid()
      modifies this
      ensures items == Extracted(p, data, old(Position()))
    {
      hide Step;
      items := [];
      var ret := 1;
      ghost var all := Extracted(p, data, Position());
      assert items + all == all;
      while ret > 0
        invariant Valid()
        invariant ret > 0 ==> items + Extracted(p, data, Position()) == all
        invariant ret <= 0 ==> items == all
        decreases if ret > 0 then 1 else 0, BytesAfterCurrent(data, Position()), BytesAfterValue(data, Position())
      {
        var item;
        ret, item := Extract(p);
        if ret > 0 && item.Some? {
          items := items + [item.value];
        }
      }
    }
  }

  /** From the kernel's buffer to the receiver: a scan result of well-formed events is taken
      apart into exactly its values. */
  method Receive(p: Params, es: seq<Event>) returns (items: seq<Item>)
    requires ValidParams(p)
    requires forall i :: 0 <= i < |es| ==> WellFormed(p, es[i])
    ensures forall i :: 0 <= i < |es| && es[i].PointEvent? ==> es[i].cmd in p.descr
    ensures items == Meanings(p.descr, es)
  {
    var data := EncodeEvents(p, es);
    assert data[0..] == data;
    EventsRead(p, data, 0, es);
    var s := new Stream(data);
    items := s.ExtractAll(p);
  }
}
