/** MAC addresses of any length as text (iwlib.c: iw_mac_ntop, iw_mac_aton). */
module MacText {
  import opened Bytes
  import opened HexText

  /** Hexadecimal pairs with colons between them. */
  function Text(mac: seq<byte>): (s: string)
    requires mac != []
    ensures |s| == 3 * |mac| - 1
  {
    if |mac| == 1 then Hex2(mac[0]) else Text(mac[..|mac| - 1]) + ":" + Hex2(mac[|mac| - 1])
  }

  /** Text of n pairs in either case of letters. */
  predicate IsMac(s: string, n: nat) {
    && n > 0 && |s| == 3 * n - 1
    && (forall k :: 0 <= k < n ==> IsHex(s[3 * k]) && IsHex(s[3 * k + 1]))
    && (forall k :: 0 <= k < n - 1 ==> s[3 * k + 2] == ':')
  }

  function Pair(s: string, k: nat): byte
    requires 3 * k + 1 < |s| && IsHex(s[3 * k]) && IsHex(s[3 * k + 1])
  {
    HexVal(s[3 * k]) * 16 + HexVal(s[3 * k + 1])
  }

  lemma {:induction false} TextIsMac(mac: seq<byte>)
    requires mac != []
    ensures IsMac(Text(mac), |mac|)
    ensures forall k :: 0 <= k < |mac| ==> Pair(Text(mac), k) == mac[k]
    decreases |mac|
  {
    if |mac| > 1 {
      var n := |mac| - 1;
      var front := Text(mac[..n]);
      TextIsMac(mac[..n]);
      var s := Text(mac);
      assert forall i :: 0 <= i < |front| ==> s[i] == front[i];
      assert s[3 * n - 1] == ':' && s[3 * n..] == Hex2(mac[n]);
      assert s[3 * n] == Hex2(mac[n])[0] && s[3 * n + 1] == Hex2(mac[n])[1];
      forall k | 0 <= k < |mac|
        ensures IsHex(s[3 * k]) && IsHex(s[3 * k + 1]) && Pair(s, k) == mac[k]
      {
        if k < n { assert Pair(front, k) == mac[..n][k]; }
      }
      forall k | 0 <= k < n ensures s[3 * k + 2] == ':' {
        if k < n - 1 { assert front[3 * k + 2] == ':'; }
      }
    }
  }

  /** iwlib.c: iw_mac_ntop; None if the buffer is too small for the text and its terminator. */
  method MacNtop(mac: seq<byte>, buflen: int) returns (r: Option<string>)
    requires mac != []
    ensures r == if buflen < |Text(mac)| + 1 then None else Some(Text(mac))
  {
    if buflen < |mac| * 3 - 1 + 1 {
      return None;
    }
    var s := Hex2(mac[0]);
    assert mac[..1] == [mac[0]];
    for i := 1 to |mac|
      invariant s == Text(mac[..i])
    {
      assert mac[..i + 1][..i] == mac[..i];
      s := s + ":" + Hex2(mac[i]);
    }
    assert mac[..|mac|] == mac;
    r := Some(s);
  }

  /** The overflow check comes after the end of the string: one byte is always taken. */
  function Room(macmax: int): int {
    if macmax < 1 then 1 else macmax
  }

  /** iwlib.c: iw_mac_aton; 0 for an error. It accepts exactly colon-separated pairs, at most
      macmax of them: white space slips through sscanf but never through the checks after it. */
  method MacAton(s: string, macmax: int) returns (n: nat, mac: seq<byte>)
    ensures n > 0 ==>
              n <= Room(macmax) && IsMac(s, n) && |mac| == n && forall k :: 0 <= k < n ==> mac[k] == Pair(s, k)
    ensures n == 0 ==> forall m: nat :: IsMac(s, m) ==> m > Room(macmax)
  {
    mac, n := [], 0;
    var p := 0;
    while p < |s|
      invariant 0 <= p <= |s| && p == 3 * |mac| && |mac| < Room(macmax)
      invariant forall k :: 0 <= k < |mac| ==> IsHex(s[3 * k]) && IsHex(s[3 * k + 1]) && mac[k] == Pair(s, k)
      invariant forall k :: 0 <= k < |mac| ==> s[3 * k + 2] == ':'
      decreases |s| - p
    {
      ghost var k := |mac|;
      var sc := ScanTwo(s[p..]);
      if sc.count != 2 {
        forall m: nat ensures !IsMac(s, m) { NoPair(s, m, k); }
        return;
      }
      Spaced(s, p);
      mac := mac + [(sc.low + sc.high * 16) % 256];
      p := p + 2;
      if p == |s| {
        n := |mac|;
        return;
      }
      if |mac| >= macmax {
        return;
      }
      if s[p] != ':' {
        return;
      }
      p := p + 1;
    }
  }

  lemma NoPair(s: string, m: nat, k: nat)
    requires 3 * k < |s| && ScanTwo(s[3 * k..]).count != 2
    ensures !IsMac(s, m)
  {
    var t := s[3 * k..];
    if |t| >= 2 && IsHex(t[0]) && IsHex(t[1]) { ScanPair(t); }
    assert t[0] == s[3 * k] && (|t| >= 2 ==> t[1] == s[3 * k + 1]);
  }

  lemma Spaced(s: string, p: nat)
    requires p < |s| && ScanTwo(s[p..]).count == 2
    ensures p + 2 <= |s|
    ensures if IsHex(s[p]) && IsHex(s[p + 1]) then ScanTwo(s[p..]) == Scan(2, HexVal(s[p]), HexVal(s[p + 1]))
            else p + 2 < |s| && (IsHex(s[p + 2]) || IsSpace(s[p + 2]))
  {
    var t := s[p..];
    assert t[0] == s[p] && t[1] == s[p + 1];
    ScanSpaced(t);
    if IsHex(s[p]) && IsHex(s[p + 1]) { ScanPair(t); } else { assert t[2] == s[p + 2]; }
  }

  /** Reading back what was printed gives the address. */
  method RoundTrip(mac: seq<byte>, macmax: nat) returns (n: nat, back: seq<byte>)
    requires 0 < |mac| <= macmax
    ensures n == |mac| && back == mac
  {
    TextIsMac(mac);
    var r := MacNtop(mac, |mac| * 3);
    n, back := MacAton(r.value, macmax);
    if n > 0 { assert |mac| == n; }
    assert forall k :: 0 <= k < n ==> back[k] == Pair(Text(mac), k) == mac[k];
  }
}
