/**
 * Bytes as Node's Buffer holds them, their big-endian reading, and the
 * `readUInt32BE` / `writeUInt32BE` pair the wire formats are built from.
 */
module Bytes {

  type uint8 = b: int | 0 <= b < 256

  const UINT32_LIMIT: nat := 0x1_0000_0000

  function Pow256(k: nat): (r: nat)
    ensures r >= 1
  {
    if k == 0 then 1 else 256 * Pow256(k - 1)
  }

  /** The unsigned number the bytes of `s` spell, most significant first. */
  function BigEndian(s: seq<uint8>): nat
  {
    if s == [] then 0 else BigEndian(s[..|s| - 1]) * 256 + s[|s| - 1]
  }

  lemma {:induction false} BigEndianBound(s: seq<uint8>)
    ensures BigEndian(s) < Pow256(|s|)
  {
    if s != [] {
      BigEndianBound(s[..|s| - 1]);
    }
  }

  /** The value of four bytes, spelled out. */
  lemma BigEndianOfFour(s: seq<uint8>)
    requires |s| == 4
    ensures BigEndian(s) == s[0] as int * 0x100_0000 + s[1] as int * 0x1_0000 + s[2] as int * 0x100 + s[3] as int
  {
    assert s[..3][..2][..1][..0] == [];
    assert s[..3][..2][..1] == [s[0]];
    assert s[..3][..2] == [s[0], s[1]];
    assert s[..3] == [s[0], s[1], s[2]];
    assert BigEndian([s[0]]) == s[0];
  }

  /**
   * `writeUInt32BE(v, off, true)`: the assertion-free form keeps only the
   * low 32 bits of `v`.
   */
  function UInt32BE(v: nat): (r: seq<uint8>)
    ensures |r| == 4
  {
    [(v / 0x100_0000) % 256, (v / 0x1_0000) % 256, (v / 0x100) % 256, v % 256]
  }

  lemma DivMod256(hi: nat, lo: nat)
    requires lo < 256
    ensures (hi * 256 + lo) / 256 == hi && (hi * 256 + lo) % 256 == lo
  {
  }

  lemma DivChain(x: nat)
    ensures x / 0x1_0000 == x / 256 / 256 && x / 0x100_0000 == x / 256 / 256 / 256
  {
  }

  /** Writing a value and reading it back gives the value modulo 2^32. */
  lemma UInt32BEValue(v: nat)
    ensures BigEndian(UInt32BE(v)) == v % UINT32_LIMIT
  {
    var r := UInt32BE(v);
    BigEndianOfFour(r);
    DivChain(v);
    var q1 := v / 256;
    var q2 := q1 / 256;
    var q3 := q2 / 256;
    var q4 := q3 / 256;
    var low := (q3 % 256) * 0x100_0000 + (q2 % 256) * 0x1_0000 + (q1 % 256) * 0x100 + v % 256;
    assert BigEndian(r) == low;
    assert v == q4 * UINT32_LIMIT + low;
    assert 0 <= low < UINT32_LIMIT;
  }

  /** Four bytes read big-endian and written back are the same four bytes. */
  lemma UInt32BEOfBigEndian(s: seq<uint8>)
    requires |s| == 4
    ensures UInt32BE(BigEndian(s)) == s
  {
    BigEndianOfFour(s);
    var a: nat, b: nat, c: nat, d: nat := s[0], s[1], s[2], s[3];
    var t1 := a * 256 + b;
    var t2 := t1 * 256 + c;
    var v := BigEndian(s);
    assert v == t2 * 256 + d;
    DivMod256(t2, d);
    DivMod256(t1, c);
    DivMod256(a, b);
    DivChain(v);
    assert a % 256 == a;
  }

  /** `readUInt32BE(off, true)` on bytes known to be present. */
  function ReadUInt32BE(s: seq<uint8>, off: nat): (r: nat)
    requires off + 4 <= |s|
    ensures r < UINT32_LIMIT && UInt32BE(r) == s[off..off + 4]
  {
    UInt32BEOfBigEndian(s[off..off + 4]);
    BigEndianBound(s[off..off + 4]);
    BigEndian(s[off..off + 4])
  }

  /** A value below 2^32 survives writing and reading at any offset. */
  lemma ReadUInt32BEOfWrite(prefix: seq<uint8>, v: nat, rest: seq<uint8>)
    requires v < UINT32_LIMIT
    ensures ReadUInt32BE(prefix + UInt32BE(v) + rest, |prefix|) == v
  {
    var w := UInt32BE(v);
    var s := prefix + w + rest;
    assert s[|prefix|..|prefix| + 4] == w;
    UInt32BEValue(v);
    ReadBack(s, |prefix|, w, v);
  }

  lemma ReadBack(s: seq<uint8>, off: nat, w: seq<uint8>, v: nat)
    requires off + 4 <= |s| && s[off..off + 4] == w
    requires v < UINT32_LIMIT && BigEndian(w) == v % UINT32_LIMIT
    ensures ReadUInt32BE(s, off) == v
  {
  }

  /** Node's 'binary' (latin1) string encoding: each code unit keeps its low 8 bits. */
  function Latin1(s: string): (r: seq<uint8>)
    ensures |r| == |s|
    ensures forall k :: 0 <= k < |s| ==> r[k] == (s[k] as int) % 256
  {
    seq(|s|, k requires 0 <= k < |s| => (s[k] as int) % 256)
  }

  /** The bytes of a seven-letter ASCII type name such as "ssh-rsa". */
  function Ascii(s: string): (r: seq<uint8>)
    requires forall k :: 0 <= k < |s| ==> (s[k] as int) < 128
    ensures |r| == |s|
    ensures forall k :: 0 <= k < |s| ==> r[k] == s[k] as int
  {
    Latin1(s)
  }
}
