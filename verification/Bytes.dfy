/** Byte strings, blocks of fixed sizes and little-endian numbers: what the C code
    does with `read`, `write`, `memcpy` and packed structures. */
module Bytes {

  datatype Option<+T> = None | Some(value: T)

  type byte = x: int | 0 <= x < 256
  type uint16 = x: int | 0 <= x < 0x1_0000
  type uint32 = x: int | 0 <= x < 0x1_0000_0000

  /** One structure after the other. */
  function Flatten(blocks: seq<seq<byte>>): seq<byte> {
    if blocks == [] then [] else blocks[0] + Flatten(blocks[1..])
  }

  function Sum(sizes: seq<nat>): nat {
    if sizes == [] then 0 else sizes[0] + Sum(sizes[1..])
  }

  /** Each block has the size given for it. */
  predicate Fits(blocks: seq<seq<byte>>, sizes: seq<nat>) {
    |blocks| == |sizes| && forall i :: 0 <= i < |blocks| ==> |blocks[i]| == sizes[i]
  }

  /** Cut a byte string into consecutive blocks of the given sizes. */
  function Split(b: seq<byte>, sizes: seq<nat>): (blocks: seq<seq<byte>>)
    requires |b| == Sum(sizes)
    ensures |blocks| == |sizes|
    decreases |sizes|
  {
    if sizes == [] then []
    else [b[..sizes[0]]] + Split(b[sizes[0]..], sizes[1..])
  }

  lemma {:induction false} FlattenLength(blocks: seq<seq<byte>>, sizes: seq<nat>)
    requires Fits(blocks, sizes)
    ensures |Flatten(blocks)| == Sum(sizes)
    decreases |blocks|
  {
    if blocks != [] {
      FlattenLength(blocks[1..], sizes[1..]);
    }
  }

  lemma {:induction false} FlattenAppend(a: seq<seq<byte>>, b: seq<seq<byte>>)
    ensures Flatten(a + b) == Flatten(a) + Flatten(b)
    decreases |a|
  {
    if a == [] {
      assert a + b == b;
    } else {
      assert (a + b)[1..] == a[1..] + b;
      FlattenAppend(a[1..], b);
    }
  }

  /** Cutting undoes joining. */
  lemma {:induction false} SplitFlatten(blocks: seq<seq<byte>>, sizes: seq<nat>)
    requires Fits(blocks, sizes)
    ensures |Flatten(blocks)| == Sum(sizes)
    ensures Split(Flatten(blocks), sizes) == blocks
    decreases |blocks|
  {
    FlattenLength(blocks, sizes);
    if blocks != [] {
      FlattenLength(blocks[1..], sizes[1..]);
      SplitFlatten(blocks[1..], sizes[1..]);
      var b := Flatten(blocks);
      assert b[..sizes[0]] == blocks[0];
      assert b[sizes[0]..] == Flatten(blocks[1..]);
    }
  }

  /** Joining undoes cutting, and every piece has its size. */
  lemma {:induction false} FlattenSplit(b: seq<byte>, sizes: seq<nat>)
    requires |b| == Sum(sizes)
    ensures Flatten(Split(b, sizes)) == b
    ensures Fits(Split(b, sizes), sizes)
    decreases |sizes|
  {
    if sizes != [] {
      FlattenSplit(b[sizes[0]..], sizes[1..]);
      var s := Split(b, sizes);
      assert s[1..] == Split(b[sizes[0]..], sizes[1..]);
      assert b == b[..sizes[0]] + b[sizes[0]..];
      forall i | 0 <= i < |s| ensures |s[i]| == sizes[i] {
        if i > 0 { assert s[i] == s[1..][i - 1] && sizes[i] == sizes[1..][i - 1]; }
      }
    }
  }

  /** Cutting a part out of a concatenation. */
  lemma Middle<T>(a: seq<T>, b: seq<T>, c: seq<T>)
    ensures (a + (b + c))[|a|..|a| + |b|] == b && (a + (b + c))[|a| + |b|..] == c
  {}

  /** Cutting twice. */
  lemma CutTwice<T>(s: seq<T>, at: nat, i: nat, j: nat)
    requires i <= j && at + j <= |s|
    ensures s[at..][i..j] == s[at + i..at + j] && s[at..][j..] == s[at + j..]
  {}

  function U16(n: uint16): (b: seq<byte>)
    ensures |b| == 2
  {
    [n % 256, n / 256]
  }

  function FromU16(b: seq<byte>): (n: uint16)
    requires |b| == 2
  {
    b[0] as int + 256 * b[1] as int
  }

  function U32(n: uint32): (b: seq<byte>)
    ensures |b| == 4
  {
    [n % 256, n / 256 % 256, n / 0x1_0000 % 256, n / 0x100_0000]
  }

  function FromU32(b: seq<byte>): (n: uint32)
    requires |b| == 4
  {
    b[0] as int + 256 * b[1] as int + 0x1_0000 * b[2] as int + 0x100_0000 * b[3] as int
  }

  lemma DecodeU16(n: uint16)
    ensures FromU16(U16(n)) == n
  {}

  lemma EncodeU16(b: seq<byte>)
    requires |b| == 2
    ensures U16(FromU16(b)) == b
  {}

  lemma DecodeU32(n: uint32)
    ensures FromU32(U32(n)) == n
  {
    var n1, n2, n3 := n / 256, n / 0x1_0000, n / 0x100_0000;
    assert n == 256 * n1 + n % 256;
    assert n2 == n1 / 256 && n1 == 256 * n2 + n1 % 256;
    assert n3 == n2 / 256 && n2 == 256 * n3 + n2 % 256;
  }

  lemma EncodeU32(b: seq<byte>)
    requires |b| == 4
    ensures U32(FromU32(b)) == b
  {
    var b0, b1, b2, b3 := b[0] as int, b[1] as int, b[2] as int, b[3] as int;
    var m := FromU32(b);
    assert m == b0 + 256 * (b1 + 256 * b2 + 0x1_0000 * b3);
    assert m / 256 == b1 + 256 * (b2 + 256 * b3);
    assert m / 0x1_0000 == m / 256 / 256 == b2 + 256 * b3;
    assert m / 0x100_0000 == m / 0x1_0000 / 256 == b3;
    assert U32(m) == [b0, b1, b2, b3];
  }
}
