/** Bytes, little-endian integers and byte-addressed files with `pwrite`/`pread`. */
module Bytes {

  type byte = x: int | 0 <= x < 0x100
  type u32 = x: int | 0 <= x < 0x1_0000_0000
  /** The number of values of a 32-bit word. */
  const WORD := 0x1_0000_0000

  type u64 = x: int | 0 <= x < 0x1_0000_0000_0000_0000

  /** A file or a device: the bytes that have been written. Everything else reads as zero. */
  type File = map<nat, byte>

  /** The byte that lands at file offset `i` when `bs` is written at `off`. */
  function Landing(bs: seq<byte>, off: nat, i: nat): byte
    requires off <= i < off + |bs|
  {
    bs[i - off]
  }

  function PWrite(f: File, off: nat, bs: seq<byte>): File {
    f + map i: nat | off <= i < off + |bs| :: Landing(bs, off, i)
  }

  function ByteAt(f: File, i: nat): byte {
    if i in f then f[i] else 0
  }

  /** Some byte reads differently. */
  ghost predicate ReadsDiffer(f: File, g: File) {
    exists i: nat :: ByteAt(f, i) != ByteAt(g, i)
  }

  function PRead(f: File, off: nat, n: nat): (bs: seq<byte>)
    ensures |bs| == n
  {
    seq<byte>(n, i requires 0 <= i => ByteAt(f, off + i))
  }

  lemma ReadBack(f: File, off: nat, bs: seq<byte>)
    ensures PRead(PWrite(f, off, bs), off, |bs|) == bs
  {
    var g := PWrite(f, off, bs);
    forall i | 0 <= i < |bs|
      ensures PRead(g, off, |bs|)[i] == bs[i]
    {
      assert ByteAt(g, off + i) == Landing(bs, off, off + i);
    }
  }

  /** A write leaves every disjoint range as it was. */
  lemma ReadElsewhere(f: File, off: nat, bs: seq<byte>, at: nat, n: nat)
    requires at + n <= off || off + |bs| <= at
    ensures PRead(PWrite(f, off, bs), at, n) == PRead(f, at, n)
  {
    var g := PWrite(f, off, bs);
    forall i | 0 <= i < n
      ensures PRead(g, at, n)[i] == PRead(f, at, n)[i]
    {
      assert ByteAt(g, at + i) == ByteAt(f, at + i);
    }
  }

  function Pow256(k: nat): (p: nat)
    ensures p > 0
  {
    if k == 0 then 1 else 256 * Pow256(k - 1)
  }

  /** The `k` low-order bytes of `n`, least significant first. */
  function LittleEndian(n: nat, k: nat): (s: seq<byte>)
    ensures |s| == k
  {
    if k == 0 then [] else [n % 256] + LittleEndian(n / 256, k - 1)
  }

  function FromLittleEndian(s: seq<byte>): (n: nat)
    ensures n < Pow256(|s|)
  {
    if s == [] then 0 else s[0] + 256 * FromLittleEndian(s[1..])
  }

  lemma {:induction false} LittleEndianRoundTrip(n: nat, k: nat)
    requires n < Pow256(k)
    ensures FromLittleEndian(LittleEndian(n, k)) == n
  {
    if k == 0 {
    } else {
      LittleEndianRoundTrip(n / 256, k - 1);
      assert LittleEndian(n, k)[1..] == LittleEndian(n / 256, k - 1);
    }
  }

  lemma PowersOf256()
    ensures Pow256(4) == 0x1_0000_0000
    ensures Pow256(8) == 0x1_0000_0000_0000_0000
  {
    assert Pow256(2) == 0x1_0000;
    assert Pow256(4) == 0x1_0000_0000;
    assert Pow256(6) == 0x1_0000_0000_0000;
    assert Pow256(8) == 0x1_0000_0000_0000_0000;
  }

  function Read32(s: seq<byte>): u32
    requires |s| == 4
  {
    PowersOf256();
    FromLittleEndian(s)
  }

  function Read64(s: seq<byte>): u64
    requires |s| == 8
  {
    PowersOf256();
    FromLittleEndian(s)
  }

  lemma Read32RoundTrip(n: u32)
    ensures Read32(LittleEndian(n, 4)) == n
  {
    PowersOf256();
    LittleEndianRoundTrip(n, 4);
  }

  lemma Read64RoundTrip(n: u64)
    ensures Read64(LittleEndian(n, 8)) == n
  {
    PowersOf256();
    LittleEndianRoundTrip(n, 8);
  }

  function Xor32(a: u32, b: u32): u32 {
    ((a as bv32) ^ (b as bv32)) as int
  }

  /** A 32-bit number is made of its four bytes. */
  lemma FourBytes(x: u32)
    ensures x / 0x100_0000 < 0x100
    ensures x == x % 0x100 + 0x100 * (x / 0x100 % 0x100 + 0x100 * (x / 0x1_0000 % 0x100 + 0x100 * (x / 0x100_0000)))
  {
    var a := x / 0x100;
    var b := a / 0x100;
    assert x / 0x1_0000 == b;
    assert x / 0x100_0000 == b / 0x100;
  }
}
