/** Hexadecimal digits, and what sscanf("%1X%1X") makes of a string: white space is skipped
    before each digit. */
module HexText {
  import opened Bytes

  predicate IsSpace(c: char) {
    c == ' ' || '\t' <= c <= '\r'
  }

  predicate IsHex(c: char) {
    '0' <= c <= '9' || 'A' <= c <= 'F' || 'a' <= c <= 'f'
  }

  function HexVal(c: char): (v: nat)
    requires IsHex(c)
    ensures v < 16
  {
    if '0' <= c <= '9' then c as int - '0' as int
    else if 'A' <= c <= 'F' then c as int - 'A' as int + 10
    else c as int - 'a' as int + 10
  }

  function HexChar(d: nat): (c: char)
    requires d < 16
    ensures IsHex(c) && HexVal(c) == d
  {
    if d < 10 then ('0' as int + d) as char else ('A' as int + d - 10) as char
  }

  /** "%02X" */
  function Hex2(b: byte): (s: string)
    ensures |s| == 2 && IsHex(s[0]) && IsHex(s[1]) && HexVal(s[0]) * 16 + HexVal(s[1]) == b
  {
    [HexChar(b / 16), HexChar(b % 16)]
  }

  function SkipSpace(s: string): (t: string)
    ensures |t| <= |s| && (t != "" ==> !IsSpace(t[0]))
    ensures s != "" && !IsSpace(s[0]) ==> t == s
    ensures s != "" && IsSpace(s[0]) ==> |t| < |s|
  {
    if s != "" && IsSpace(s[0]) then SkipSpace(s[1..]) else s
  }

  datatype Scan = Scan(count: nat, high: nat, low: nat)

  /** sscanf(s, "%1X%1X", &high, &low) */
  function ScanTwo(s: string): (r: Scan)
    ensures r.count <= 2 && r.count <= |s| && r.high < 16 && r.low < 16
  {
    var t := SkipSpace(s);
    if t == "" || !IsHex(t[0]) then Scan(0, 0, 0)
    else
      var u := SkipSpace(t[1..]);
      if u == "" || !IsHex(u[0]) then Scan(1, HexVal(t[0]), 0)
      else Scan(2, HexVal(t[0]), HexVal(u[0]))
  }

  /** Two digits in a row are read as they stand. */
  lemma ScanPair(s: string)
    requires |s| >= 2 && IsHex(s[0]) && IsHex(s[1])
    ensures ScanTwo(s) == Scan(2, HexVal(s[0]), HexVal(s[1]))
  {}

  lemma ScanOne(s: string)
    requires s != "" && IsHex(s[0]) && (|s| == 1 || !(IsHex(s[1]) || IsSpace(s[1])))
    ensures ScanTwo(s) == Scan(1, HexVal(s[0]), 0)
  {}

  lemma ScanNone(s: string)
    requires s == "" || !(IsHex(s[0]) || IsSpace(s[0]))
    ensures ScanTwo(s).count == 0
  {}

  /** White space that sscanf skips always leaves a digit or more white space in third place. */
  lemma ScanSpaced(s: string)
    requires ScanTwo(s).count == 2
    ensures (IsHex(s[0]) && IsHex(s[1])) || (|s| > 2 && (IsHex(s[2]) || IsSpace(s[2])))
  {
    if !(IsHex(s[0]) && IsHex(s[1])) {
      if IsSpace(s[0]) {
        var t := SkipSpace(s);
        assert SkipSpace(s) == SkipSpace(s[1..]);
        if !IsSpace(s[1]) {
          assert t == s[1..];
          assert t[1..] == s[2..];
        } else {
          assert SkipSpace(s[1..]) == SkipSpace(s[2..]);
          assert s[1..][1..] == s[2..];
        }
      } else {
        assert SkipSpace(s) == s;
        assert IsSpace(s[1]);
        assert SkipSpace(s[1..]) == SkipSpace(s[2..]) by { assert s[1..][1..] == s[2..]; }
      }
    }
  }
}
