/** Encryption keys as text (iwlib.c: iw_print_key, iw_in_key). */
module KeyText {
  import opened Bytes
  import opened HexText

  predicate IsSeparator(c: char) {
    c == '-' || c == ':' || c == ';' || c == '.' || c == ','
  }

  /** strcspn(s, "-:;.,") */
  function Span(s: string): (n: nat)
    ensures n <= |s| && (n < |s| ==> IsSeparator(s[n]))
    ensures forall i :: 0 <= i < n ==> !IsSeparator(s[i])
  {
    if s == "" || IsSeparator(s[0]) then 0 else 1 + Span(s[1..])
  }

  // ---------- what the loop of iw_in_key reads ----------

  datatype Digits = Digits(bytes: seq<byte>, ok: bool)

  function Cons(b: byte, d: Digits): Digits {
    Digits([b] + d.bytes, d.ok)
  }

  /** How many characters of `s` the next byte takes, with `dlen` left in the group. */
  function Taken(s: string, dlen: nat): (n: nat)
    requires ScanTwo(s).count >= 1
    ensures 1 <= n <= 2 && n <= |s|
  {
    if dlen % 2 != 0 then 1 else ScanTwo(s).count
  }

  function NextByte(s: string, dlen: nat): byte
    requires ScanTwo(s).count >= 1
  {
    var sc := ScanTwo(s);
    if Taken(s, dlen) == 2 then sc.high * 16 + sc.low else sc.high
  }

  /** Bytes read, up to the end or to the first error, if the key may be of any length: `dlen` is
      the number of characters left in the current group, negative before the first group. */
  function Read(s: string, dlen: int): Digits
    decreases |s|
  {
    if s == "" then Digits([], true)
    else
      var t := if dlen == 0 then s[1..] else s;
      var d := if dlen <= 0 then Span(t) else dlen;
      if ScanTwo(t).count < 1 then Digits([], false)
      else Cons(NextByte(t, d), Read(t[Taken(t, d)..], d - Taken(t, d)))
  }

  lemma ReadOnce(s: string, dlen: int)
    requires s != ""
    ensures
      var t := if dlen == 0 then s[1..] else s;
      var d := if dlen <= 0 then Span(t) else dlen;
      Read(s, dlen) ==
      if ScanTwo(t).count < 1 then Digits([], false)
      else Cons(NextByte(t, d), Read(t[Taken(t, d)..], d - Taken(t, d)))
  {
    hide ScanTwo, Span, Taken, NextByte, Cons;
  }

  lemma ReadInside(s: string, dlen: int)
    requires s != "" && dlen > 0
    ensures Read(s, dlen) ==
      if ScanTwo(s).count < 1 then Digits([], false)
      else Cons(NextByte(s, dlen), Read(s[Taken(s, dlen)..], dlen - Taken(s, dlen)))
  {
    hide Read, ScanTwo, Span, Taken, NextByte, Cons;
    ReadOnce(s, dlen);
  }

  /** Before a group: as inside it, if it is not empty. */
  lemma ReadFirst(s: string, dlen: int)
    requires s != "" && dlen < 0
    ensures Read(s, dlen) == if Span(s) == 0 then Digits([], false) else Read(s, Span(s))
  {
    hide Read, ScanTwo, Span, Taken, NextByte, Cons;
    ReadOnce(s, dlen);
    EmptySpan(s);
    if Span(s) != 0 { ReadInside(s, Span(s)); }
  }

  lemma ReadSeparator(sep: char, s: string)
    ensures Read([sep] + s, 0) == if Span(s) == 0 then Digits([], false) else Read(s, Span(s))
  {
    hide Read, ScanTwo, Span, Taken, NextByte, Cons;
    assert ([sep] + s)[1..] == s;
    ReadOnce([sep] + s, 0);
    EmptySpan(s);
    if Span(s) != 0 { ReadInside(s, Span(s)); }
  }

  lemma EmptySpan(s: string)
    ensures Span(s) == 0 ==> ScanTwo(s).count == 0
  {
    if Span(s) == 0 { ScanNone(s); }
  }

  // ---------- groups of digits ----------

  predicate AllHex(s: string) {
    forall i :: 0 <= i < |s| ==> IsHex(s[i])
  }

  predicate NoSpace(s: string) {
    forall i :: 0 <= i < |s| ==> !IsSpace(s[i])
  }

  /** An even number of digits as bytes. */
  function Pairs(g: string): (b: seq<byte>)
    requires AllHex(g) && |g| % 2 == 0
    ensures |b| == |g| / 2
    decreases |g|
  {
    if g == "" then [] else [HexVal(g[0]) * 16 + HexVal(g[1])] + Pairs(g[2..])
  }

  /** Any number of digits: an odd one as if it had a zero before it. */
  function GroupBytes(g: string): seq<byte>
    requires AllHex(g)
  {
    Pairs(if |g| % 2 == 0 then g else "0" + g)
  }

  lemma GroupStep(g: string)
    requires AllHex(g) && g != ""
    ensures |g| % 2 != 0 ==> GroupBytes(g) == [HexVal(g[0])] + GroupBytes(g[1..])
    ensures |g| % 2 == 0 ==> GroupBytes(g) == [HexVal(g[0]) * 16 + HexVal(g[1])] + GroupBytes(g[2..])
  {
    if |g| % 2 != 0 {
      var h := "0" + g;
      assert h[2..] == g[1..] && h[0] == '0' && h[1] == g[0];
    }
  }

  /** Text cut at its separators: the first group, then separator and group as often as needed. */
  datatype Groups = Last(g: string) | More(g: string, sep: char, others: Groups)

  function ToGroups(s: string): (gs: Groups)
    ensures Join(gs) == s
    decreases |s|
  {
    var n := Span(s);
    if n == |s| then Last(s)
    else
      var gs := More(s[..n], s[n], ToGroups(s[n + 1..]));
      assert s == s[..n] + [s[n]] + s[n + 1..];
      gs
  }

  function Join(gs: Groups): string {
    match gs
    case Last(g) => g
    case More(g, sep, others) => g + [sep] + Join(others)
  }

  predicate ValidGroups(gs: Groups) {
    && gs.g != "" && AllHex(gs.g)
    && (gs.More? ==> IsSeparator(gs.sep) && ValidGroups(gs.others))
  }

  function AllBytes(gs: Groups): seq<byte>
    requires ValidGroups(gs)
  {
    match gs
    case Last(g) => GroupBytes(g)
    case More(g, sep, others) => GroupBytes(g) + AllBytes(others)
  }

  /** Nothing to read, or a separator comes next. */
  predicate GroupEnd(rest: string) {
    rest == "" || IsSeparator(rest[0])
  }

  lemma {:induction false} SpanOfGroup(g: string, rest: string)
    requires (forall i :: 0 <= i < |g| ==> !IsSeparator(g[i])) && GroupEnd(rest)
    ensures Span(g + rest) == |g|
    decreases |g|
  {
    if g == "" {
      assert g + rest == rest;
    } else {
      assert (g + rest)[1..] == g[1..] + rest;
      SpanOfGroup(g[1..], rest);
    }
  }

  lemma HexFirst(g: string, rest: string)
    requires g != "" && IsHex(g[0]) && NoSpace(g) && GroupEnd(rest)
    ensures ScanTwo(g + rest).count >= 1 && ScanTwo(g + rest).high == HexVal(g[0])
    ensures if |g| > 1 && IsHex(g[1]) then ScanTwo(g + rest) == Scan(2, HexVal(g[0]), HexVal(g[1]))
            else ScanTwo(g + rest).count == 1
  {
    var s := g + rest;
    if |g| > 1 {
      if IsHex(g[1]) { ScanPair(s); } else { ScanOne(s); }
    } else {
      assert |s| > 1 ==> s[1] == rest[0];
      ScanOne(s);
    }
  }

  /** Inside a group of digits: its bytes come first, then reading goes on at the separator. */
  lemma {:induction false} ReadGroup(g: string, rest: string)
    requires g != "" && AllHex(g) && GroupEnd(rest)
    ensures Read(g + rest, |g|) == Digits(GroupBytes(g) + Read(rest, 0).bytes, Read(rest, 0).ok)
    decreases |g|
  {
    hide Read, ScanTwo, GroupBytes, HexVal;
    var s := g + rest;
    var count := if |g| % 2 != 0 then 1 else 2;
    HexFirst(g, rest);
    ReadInside(s, |g|);
    GroupStep(g);
    assert s[count..] == g[count..] + rest;
    if |g| == count {
      assert s[count..] == rest;
      NoDigits(g[count..]);
    } else {
      ReadGroup(g[count..], rest);
    }
  }

  lemma NoDigits(g: string)
    requires g == ""
    ensures GroupBytes(g) == []
  {}

  /** Position of the first character that is no digit. */
  function FirstBad(g: string): (j: nat)
    ensures j <= |g| && (forall i :: 0 <= i < j ==> IsHex(g[i])) && (j < |g| ==> !IsHex(g[j]))
  {
    if g == "" || !IsHex(g[0]) then 0 else 1 + FirstBad(g[1..])
  }

  /** Bytes that a bad group yields before its first bad character: a digit that has lost its partner
      is one. */
  function BytesOfBad(g: string): nat {
    var j := FirstBad(g);
    if j == 0 then 0 else if |g| % 2 == 0 then (j + 1) / 2 else 1 + j / 2
  }

  lemma FirstBadCut(g: string, n: nat)
    requires n <= FirstBad(g)
    ensures FirstBad(g[n..]) == FirstBad(g) - n
  {
    assert forall i :: n <= i < |g| ==> g[n..][i - n] == g[i];
  }

  lemma BadAtOnce(g: string)
    ensures g != "" && !IsHex(g[0]) ==> BytesOfBad(g) == 0
  {}

  lemma BadStep(g: string, count: nat)
    requires |g| > 1 && IsHex(g[0]) && count == if |g| % 2 == 0 && IsHex(g[1]) then 2 else 1
    ensures BytesOfBad(g) == 1 + BytesOfBad(g[count..])
  {
    FirstBadCut(g, count);
  }

  /** Inside a group that has something else than digits: an error, after so many bytes. */
  lemma {:induction false} ReadBadGroup(g: string, rest: string)
    requires !AllHex(g) && NoSpace(g) && GroupEnd(rest)
    ensures !Read(g + rest, |g|).ok && |Read(g + rest, |g|).bytes| == BytesOfBad(g)
    decreases |g|
  {
    hide Read, ScanTwo, BytesOfBad;
    var s := g + rest;
    ReadInside(s, |g|);
    BadAtOnce(g);
    if !IsHex(g[0]) {
      ScanNone(s);
    } else {
      HexFirst(g, rest);
      var count := Taken(s, |g|);
      assert s[count..] == g[count..] + rest;
      assert forall i :: 0 <= i < count ==> IsHex(g[i]);
      BadStep(g, count);
      StillBad(g, count);
      ReadBadGroup(g[count..], rest);
    }
  }

  lemma StillBad(g: string, count: nat)
    requires !AllHex(g) && NoSpace(g) && count <= |g| && forall i :: 0 <= i < count ==> IsHex(g[i])
    ensures !AllHex(g[count..]) && NoSpace(g[count..])
  {
    var i :| 0 <= i < |g| && !IsHex(g[i]);
    assert g[count..][i - count] == g[i];
  }

  lemma EndOfText()
    ensures Read("", 0) == Digits([], true)
  {}

  lemma GroupsStep(s: string)
    ensures var n := Span(s);
            ToGroups(s) == if n == |s| then Last(s) else More(s[..n], s[n], ToGroups(s[n + 1..]))
  {}

  lemma NoSpaceParts(s: string, n: nat)
    requires NoSpace(s) && n <= |s|
    ensures NoSpace(s[..n]) && (n < |s| ==> NoSpace(s[n + 1..]))
  {}

  lemma NothingBad()
    ensures BytesOfBad("") == 0
  {}

  lemma GroupLength(g: string)
    requires AllHex(g)
    ensures |GroupBytes(g)| == (|g| + 1) / 2
  {}

  /** Bytes read before the first error. */
  function BytesBefore(gs: Groups): nat {
    if gs.g == "" || !AllHex(gs.g) then BytesOfBad(gs.g)
    else (|gs.g| + 1) / 2 + if gs.More? then BytesBefore(gs.others) else 0
  }

  /** Text without white space is read without error exactly if it is digits in groups, none of
      them empty, and then each odd group is read as if left-padded with a zero. */
  lemma {:induction false} ReadGroups(s: string)
    requires NoSpace(s)
    ensures var gs := ToGroups(s);
            var r := if Span(s) == 0 then Digits([], false) else Read(s, Span(s));
            r.ok == ValidGroups(gs) && (if r.ok then r.bytes == AllBytes(gs) else |r.bytes| == BytesBefore(gs))
    decreases |s|
  {
    hide Read, GroupBytes, Span, Join, NoSpace, ToGroups, AllHex;
    NothingBad();
    GroupsStep(s);
    NoSpaceParts(s, Span(s));
    var n := Span(s);
    var g, rest := s[..n], s[n..];
    assert s == g + rest;
    if n < |s| {
      ReadGroups(s[n + 1..]);
      ReadSeparator(s[n], s[n + 1..]);
      assert rest == [s[n]] + s[n + 1..];
    } else {
      EndOfText();
      assert g == s && rest == "";
    }
    if n > 0 {
      if AllHex(g) {
        ReadGroup(g, rest);
        GroupLength(g);
      } else {
        ReadBadGroup(g, rest);
      }
    }
  }

  /** Cutting finds the groups that were joined, so that the groups of a text are unique. */
  lemma {:induction false} GroupsOfJoin(gs: Groups)
    requires ValidGroups(gs)
    ensures ToGroups(Join(gs)) == gs && NoSpace(Join(gs))
    decreases gs
  {
    hide Span;
    var s := Join(gs);
    match gs
    case Last(g) =>
      SpanOfGroup(g, "");
      assert g + "" == g;
    case More(g, sep, others) =>
      GroupsOfJoin(others);
      var rest := [sep] + Join(others);
      SpanOfGroup(g, rest);
      assert s == g + rest;
      assert s[..|g|] == g && s[|g|] == sep && s[|g| + 1..] == Join(others);
  }

  // ---------- parsing ----------

  /** A C string: the terminator is not part of it. */
  predicate CString(s: string) {
    forall i :: 0 <= i < |s| ==> 0 < s[i] as int < 256
  }

  function CharBytes(s: string): (b: seq<byte>)
    requires CString(s)
    ensures |b| == |s|
  {
    seq(|s|, i requires 0 <= i < |s| => s[i] as int)
  }

  function Truncated<T>(s: seq<T>, max: nat): seq<T> {
    if |s| <= max then s else s[..max]
  }

  /** The key a text stands for; None is an error. */
  function KeyOf(input: string, max: nat): Option<seq<byte>>
    requires CString(input)
  {
    if "s:" <= input then Some(Truncated(CharBytes(input[2..]), max))
    else if "p:" <= input then None
    else
      var d := Read(input, -1);
      if d.ok || |d.bytes| >= max then Some(Truncated(d.bytes, max)) else None
  }

  /** Hexadecimal text without white space: the bytes of its groups, or an error, unless the key
      is full before the first bad character or empty group is met. */
  lemma HexKey(s: string, max: nat)
    requires CString(s) && NoSpace(s) && s != "" && !("s:" <= s) && !("p:" <= s)
    ensures ValidGroups(ToGroups(s)) ==> KeyOf(s, max) == Some(Truncated(AllBytes(ToGroups(s)), max))
    ensures !ValidGroups(ToGroups(s)) ==> (KeyOf(s, max) == None <==> BytesBefore(ToGroups(s)) < max)
  {
    hide Read, ToGroups, ValidGroups, AllBytes, Span;
    ReadFirst(s, -1);
    ReadGroups(s);
  }

  method InKey(input: string, key: array<byte>, tokenMax: nat) returns (n: int)
    requires CString(input) && 0 < tokenMax <= key.Length
    modifies key
    ensures var k := KeyOf(input, tokenMax);
            if k == None then n == -1 && key[..] == old(key[..])
            else n == |k.value| && n <= tokenMax && key[..] == k.value + old(key[n..])
    ensures "s:" <= input ==>
              && n == (if |input| - 2 <= tokenMax then |input| - 2 else tokenMax)
              && forall i :: 0 <= i < n ==> key[i] == input[i + 2] as int
    ensures "p:" <= input ==> n == -1
  {
    hide Read;
    assert "s:" <= input ==> input[0] == "s:"[0];
    assert "p:" <= input ==> input[0] == "p:"[0];
    if "s:" <= input {
      n := |input| - 2;
      if n > tokenMax { n := tokenMax; }
      Memcpy(key, CharBytes(input[2..])[..n]);
    } else if "p:" <= input {
      return -1;
    } else {
      var out, len := ReadHex(input, tokenMax);
      if len < 0 { return -1; }
      n := len;
      Memcpy(key, out[..n]);
    }
  }

  method Memcpy(key: array<byte>, src: seq<byte>)
    requires |src| <= key.Length
    modifies key
    ensures key[..] == src + old(key[|src|..])
  {
    for i := 0 to |src|
      invariant forall k :: 0 <= k < i ==> key[k] == src[k]
      invariant forall k :: i <= k < key.Length ==> key[k] == old(key[k])
    {
      key[i] := src[i];
    }
  }

  /** The third case of iw_in_key, into a buffer of its own. */
  method ReadHex(input: string, tokenMax: nat) returns (out: array<byte>, len: int)
    requires tokenMax > 0
    ensures fresh(out) && out.Length == tokenMax
    ensures var d := Read(input, -1);
            if d.ok || |d.bytes| >= tokenMax then 0 <= len <= tokenMax && out[..len] == Truncated(d.bytes, tokenMax)
            else len == -1
  {
    hide Read, ReadAt, ScanTwo, Span, Prepend, Cons;
    out := new byte[tokenMax];
    var p, dlen := 0, -1;
    len := 0;
    ReadStart(input, out[..len]);
    while p < |input|
      invariant 0 <= p <= |input| && 0 <= len < tokenMax
      invariant Read(input, -1) == Prepend(out[..len], ReadAt(input, p, dlen))
      decreases |input| - p
    {
      ghost var done := out[..len];
      ReadOnceAt(input, p, dlen);
      if dlen <= 0 {
        if dlen == 0 { p := p + 1; }
        dlen := Span(input[p..]);
      }
      var sc := ScanTwo(input[p..]);
      if sc.count < 1 {
        PrependEnd(done, false);
        return out, -1;
      }
      var count := if dlen % 2 != 0 then 1 else sc.count;
      var b := if count == 2 then sc.high * 16 + sc.low else sc.high;
      out[len] := b;
      len := len + 1;
      assert out[..len] == done + [b];
      PrependCons(done, b, ReadAt(input, p + count, dlen - count));
      if len >= tokenMax {
        PrependFull(out[..len], ReadAt(input, p + count, dlen - count));
        return out, len;
      }
      p := p + count;
      dlen := dlen - count;
    }
    ReadEnd(input, dlen);
    PrependEnd(out[..len], true);
  }

  function ReadAt(input: string, p: nat, dlen: int): Digits
    requires p <= |input|
  {
    Read(input[p..], dlen)
  }

  lemma ReadStart(input: string, b: seq<byte>)
    requires b == []
    ensures Prepend(b, ReadAt(input, 0, -1)) == Read(input, -1)
  {
    hide Read;
    assert input[0..] == input;
  }

  lemma ReadEnd(input: string, dlen: int)
    ensures ReadAt(input, |input|, dlen) == Digits([], true)
  {}

  /** One turn of the loop. */
  lemma ReadOnceAt(input: string, p: nat, dlen: int)
    requires p < |input|
    ensures
      var q := if dlen == 0 then p + 1 else p;
      var d := if dlen <= 0 then Span(input[q..]) else dlen;
      var sc := ScanTwo(input[q..]);
      if sc.count < 1 then ReadAt(input, p, dlen) == Digits([], false)
      else
        var count := if d % 2 != 0 then 1 else sc.count;
        var b := if count == 2 then sc.high * 16 + sc.low else sc.high;
        q + count <= |input| && ReadAt(input, p, dlen) == Cons(b, ReadAt(input, q + count, d - count))
  {
    hide Read, ScanTwo, Span, Cons;
    var s := input[p..];
    ReadOnce(s, dlen);
    var q := if dlen == 0 then p + 1 else p;
    CutTwice(input, p, q - p, q - p);
    var t := input[q..];
    assert t == if dlen == 0 then s[1..] else s;
    if ScanTwo(t).count >= 1 {
      var d := if dlen <= 0 then Span(t) else dlen;
      CutTwice(input, q, Taken(t, d), Taken(t, d));
    }
  }

  lemma PrependEnd(b: seq<byte>, ok: bool)
    ensures Prepend(b, Digits([], ok)) == Digits(b, ok)
  {}

  lemma PrependCons(a: seq<byte>, b: byte, d: Digits)
    ensures Prepend(a, Cons(b, d)) == Prepend(a + [b], d)
  {}

  lemma PrependFull(b: seq<byte>, d: Digits)
    ensures |Prepend(b, d).bytes| >= |b| && Truncated(Prepend(b, d).bytes, |b|) == b
  {}

  function Prepend(b: seq<byte>, d: Digits): Digits {
    Digits(b + d.bytes, d.ok)
  }

  // ---------- printing ----------

  /** Two bytes to a group, with dashes between the groups. */
  function KeyGroups(key: seq<byte>): Groups
    requires key != []
  {
    if |key| == 1 then Last(Hex2(key[0]))
    else if |key| == 2 then Last(Hex2(key[0]) + Hex2(key[1]))
    else More(Hex2(key[0]) + Hex2(key[1]), '-', KeyGroups(key[2..]))
  }

  lemma {:induction false} KeyGroupsRead(key: seq<byte>)
    requires key != []
    ensures ValidGroups(KeyGroups(key)) && AllBytes(KeyGroups(key)) == key
    decreases |key|
  {
    hide Hex2, GroupBytes;
    if |key| == 1 {
      OneByte(key[0]);
    } else {
      TwoBytes(key[0], key[1]);
      if |key| > 2 { KeyGroupsRead(key[2..]); }
    }
  }

  lemma OneByte(a: byte)
    ensures AllHex(Hex2(a)) && GroupBytes(Hex2(a)) == [a]
  {
    hide Hex2;
    var g := Hex2(a);
    GroupStep(g);
    NoDigits(g[2..]);
  }

  lemma TwoBytes(a: byte, b: byte)
    ensures AllHex(Hex2(a) + Hex2(b)) && GroupBytes(Hex2(a) + Hex2(b)) == [a, b]
  {
    hide Hex2, GroupBytes;
    var g := Hex2(a) + Hex2(b);
    assert g[0] == Hex2(a)[0] && g[1] == Hex2(a)[1];
    assert g[2..] == Hex2(b);
    OneByte(b);
    GroupStep(g);
  }

  /** What is still to be printed from the i-th byte on. */
  function Tail(key: seq<byte>, i: nat): string
    requires i <= |key|
    decreases |key| - i
  {
    if i == |key| then "" else (if i % 2 == 0 && i > 0 then "-" else "") + Hex2(key[i]) + Tail(key, i + 1)
  }

  lemma TailStep(key: seq<byte>, i: nat, before: string)
    requires i < |key|
    ensures before + Tail(key, i) ==
            before + (if i % 2 == 0 && i > 0 then "-" else "") + Hex2(key[i]) + Tail(key, i + 1)
  {
    hide Hex2;
    var dash := if i % 2 == 0 && i > 0 then "-" else "";
    Appended(before, dash, Hex2(key[i]), Tail(key, i + 1));
  }

  lemma Appended(a: string, b: string, c: string, d: string)
    ensures a + (b + c + d) == (a + b + c) + d
  {}

  lemma TailEnd(key: seq<byte>, before: string)
    ensures before + Tail(key, |key|) == before
  {}

  lemma {:induction false} TailIsGroups(key: seq<byte>, i: nat)
    requires i < |key| && i % 2 == 0
    ensures Tail(key, i) == (if i > 0 then "-" else "") + Join(KeyGroups(key[i..]))
    decreases |key| - i
  {
    hide Hex2, Tail, KeyGroups, Join;
    var rest := key[i..];
    JoinStep(rest);
    TailTwice(key, i);
    if i + 2 < |key| {
      TailIsGroups(key, i + 2);
      assert rest[2..] == key[i + 2..];
      Dashed(if i > 0 then "-" else "", Hex2(rest[0]) + Hex2(rest[1]), Join(KeyGroups(rest[2..])));
    }
  }

  lemma Dashed(a: string, b: string, c: string)
    ensures a + b + ("-" + c) == a + (b + "-" + c)
  {}

  lemma TailTwice(key: seq<byte>, i: nat)
    requires i < |key| && i % 2 == 0
    ensures
      var dash := if i > 0 then "-" else "";
      Tail(key, i) ==
      if i + 1 == |key| then dash + Hex2(key[i])
      else if i + 2 == |key| then dash + (Hex2(key[i]) + Hex2(key[i + 1]))
      else dash + (Hex2(key[i]) + Hex2(key[i + 1])) + Tail(key, i + 2)
  {
    hide Hex2, Tail;
    var dash := if i > 0 then "-" else "";
    TailStep(key, i, "");
    assert "" + Tail(key, i) == Tail(key, i) && "" + dash == dash;
    var one := dash + Hex2(key[i]);
    if i + 1 == |key| {
      TailEnd(key, one);
    } else {
      TailStep(key, i + 1, one);
      assert one + "" == one;
      assert one + Hex2(key[i + 1]) == dash + (Hex2(key[i]) + Hex2(key[i + 1]));
      if i + 2 == |key| { TailEnd(key, one + Hex2(key[i + 1])); }
    }
  }

  lemma JoinStep(key: seq<byte>)
    requires key != []
    ensures Join(KeyGroups(key)) ==
            if |key| == 1 then Hex2(key[0])
            else if |key| == 2 then Hex2(key[0]) + Hex2(key[1])
            else Hex2(key[0]) + Hex2(key[1]) + "-" + Join(KeyGroups(key[2..]))
  {
    hide Hex2;
  }

  /** A key's text with stars for its digits. */
  function Starred(s: string): string {
    seq(|s|, i requires 0 <= i < |s| => if s[i] == '-' then '-' else '*')
  }

  lemma StarredPair(b: byte)
    ensures Starred(Hex2(b)) == "**"
  {
    hide Hex2;
  }

  lemma StarredAppend(text: string, dash: string, b: byte)
    requires dash == "-" || dash == ""
    ensures Starred(text + dash + Hex2(b)) == Starred(text) + dash + "**"
  {
    hide Hex2;
  }

  /** Text for `size` bytes needs five characters for every two of them, less one for no dash at
      the end. */
  lemma {:induction false} KeyTextLength(key: seq<byte>)
    requires key != []
    ensures |Join(KeyGroups(key))| == 2 * |key| + (|key| - 1) / 2
    decreases |key|
  {
    hide Hex2;
    if |key| > 2 { KeyTextLength(key[2..]); }
  }

  /** iwlib.c: iw_print_key. The size check leaves room for the terminator, except that the text for
      an empty key is written without looking at the size of the buffer. */
  method PrintKey(key: seq<byte>, size: int, noKey: bool, buflen: nat) returns (r: string)
    requires key != [] && size <= |key|
    ensures size * 3 > buflen ==> r == Truncated("<too big>", if buflen == 0 then 0 else buflen - 1)
    ensures size * 3 <= buflen && 0 < size ==>
              r == (if noKey then Starred(Join(KeyGroups(key[..size]))) else Join(KeyGroups(key[..size])))
    ensures size <= 0 ==> r == if noKey then "on" else Hex2(key[0])
    ensures |r| < buflen <==> buflen >= 3 || (buflen > 0 && size > 0)
  {
    hide Hex2, KeyGroups, Join;
    if size * 3 > buflen {
      return Truncated("<too big>", if buflen == 0 then 0 else buflen - 1);
    }
    if size > 0 { KeyTextLength(key[..size]); }
    if noKey {
      if size <= 0 {
        r := "on";
      } else {
        r := PrintStars(key[..size]);
      }
    } else if size <= 0 {
      r := PrintDigits(key[..1]);
      JoinStep(key[..1]);
    } else {
      r := PrintDigits(key[..size]);
    }
  }

  method PrintDigits(key: seq<byte>) returns (r: string)
    requires key != []
    ensures r == Join(KeyGroups(key))
  {
    hide Hex2, Tail, KeyGroups, Join;
    r := Hex2(key[0]);
    WholeTail(key);
    for i := 1 to |key|
      invariant r + Tail(key, i) == Join(KeyGroups(key))
    {
      TailStep(key, i, r);
      if i % 2 == 0 { r := r + "-"; } else { assert r + "" == r; }
      r := r + Hex2(key[i]);
    }
    TailEnd(key, r);
  }

  method PrintStars(key: seq<byte>) returns (r: string)
    requires key != []
    ensures r == Starred(Join(KeyGroups(key)))
  {
    hide Hex2, Tail, KeyGroups, Join, Starred;
    ghost var text := Hex2(key[0]);
    r := "**";
    StarredPair(key[0]);
    WholeTail(key);
    for i := 1 to |key|
      invariant text + Tail(key, i) == Join(KeyGroups(key)) && r == Starred(text)
    {
      ghost var dash := if i % 2 == 0 then "-" else "";
      TailStep(key, i, text);
      StarredAppend(text, dash, key[i]);
      if i % 2 == 0 { r := r + "-"; } else { assert r + "" == r; }
      r := r + "**";
      text := text + dash + Hex2(key[i]);
    }
    TailEnd(key, text);
  }

  lemma WholeTail(key: seq<byte>)
    requires key != []
    ensures Hex2(key[0]) + Tail(key, 1) == Join(KeyGroups(key))
  {
    hide Hex2, Tail, KeyGroups, Join;
    TailIsGroups(key, 0);
    TailStep(key, 0, "");
    assert key[0..] == key;
    assert "" + "" + Hex2(key[0]) == Hex2(key[0]) && "" + Tail(key, 0) == Tail(key, 0);
    assert "" + Join(KeyGroups(key)) == Join(KeyGroups(key));
  }

  // ---------- printing, then parsing ----------

  /** A printed key is read back, cut to the longest key there can be. */
  lemma KeyOfPrinted(key: seq<byte>, max: nat)
    requires key != []
    ensures CString(Join(KeyGroups(key)))
    ensures KeyOf(Join(KeyGroups(key)), max) == Some(Truncated(key, max))
  {
    hide KeyGroups, Hex2, ToGroups, KeyOf, ValidGroups, AllBytes, Join;
    var gs := KeyGroups(key);
    KeyGroupsRead(key);
    GroupsOfJoin(gs);
    JoinedText(gs);
    HexKey(Join(gs), max);
  }

  lemma {:induction false} JoinedText(gs: Groups)
    requires ValidGroups(gs)
    ensures var s := Join(gs); CString(s) && s != "" && IsHex(s[0])
    decreases gs
  {
    if gs.More? { JoinedText(gs.others); }
  }

  method RoundTrip(key: array<byte>, size: nat, tokenMax: nat, other: array<byte>) returns (n: int)
    requires 0 < size <= key.Length && size <= tokenMax <= other.Length && key != other
    modifies other
    ensures n == size && other[..] == key[..size] + old(other[size..])
  {
    hide KeyOf, KeyGroups, Join;
    var text := PrintKey(key[..], size, false, size * 3);
    assert key[..][..size] == key[..size];
    KeyOfPrinted(key[..size], tokenMax);
    n := InKey(text, other, tokenMax);
  }
}
