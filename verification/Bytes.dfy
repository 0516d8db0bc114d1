/** Bytes, fixed-width integers, and the integer layouts the programs put on the wire. */
module Bytes {
  type byte = x: int | 0 <= x < 0x100
  type uint16 = x: int | 0 <= x < 0x1_0000
  type uint32 = x: int | 0 <= x < 0x1_0000_0000

  datatype Option<+T> = None | Some(value: T)

  const UINT32_MAX: uint32 := 0xffff_ffff

  /** Narrowing to uint32_t. */
  function Wrap32(x: nat): (w: uint32)
    ensures x < 0x1_0000_0000 ==> w == x
  {
    x % 0x1_0000_0000
  }

  function Zeros(n: nat): (z: seq<byte>)
    ensures |z| == n
  {
    seq(n, _ => 0)
  }

  function Pow256(n: nat): (p: int)
    ensures p > 0
  {
    if n == 0 then 1 else 256 * Pow256(n - 1)
  }

  /** The low n bytes of v, least significant first: a host integer on the little-endian
      machines the programs are built for. */
  function LE(v: nat, n: nat): (b: seq<byte>)
    ensures |b| == n
  {
    if n == 0 then [] else [v % 256] + LE(v / 256, n - 1)
  }

  function FromLE(b: seq<byte>): (v: nat)
    ensures v < Pow256(|b|)
  {
    if b == [] then 0 else b[0] + 256 * FromLE(b[1..])
  }

  lemma LowByte(b: byte, high: nat)
    ensures (b + 256 * high) % 256 == b && (b + 256 * high) / 256 == high
  {
  }

  lemma {:induction false} FromLEofLE(v: nat, n: nat)
    requires v < Pow256(n)
    ensures FromLE(LE(v, n)) == v
  {
    if n > 0 {
      FromLEofLE(v / 256, n - 1);
      assert LE(v, n)[1..] == LE(v / 256, n - 1);
    }
  }

  lemma {:induction false} LEofFromLE(b: seq<byte>)
    ensures LE(FromLE(b), |b|) == b
  {
    if b != [] {
      LEofFromLE(b[1..]);
      LowByte(b[0], FromLE(b[1..]));
      assert LE(FromLE(b), |b|) == [b[0]] + LE(FromLE(b[1..]), |b[1..]|);
    }
  }

  lemma Pow256Values()
    ensures Pow256(4) == 0x1_0000_0000
    ensures Pow256(8) == 0x1_0000_0000_0000_0000
  {
    assert Pow256(2) == 256 * Pow256(1) == 0x1_0000;
    assert Pow256(4) == 256 * Pow256(3) == 0x1_0000 * Pow256(2);
    assert Pow256(6) == 256 * Pow256(5) == 0x1_0000 * Pow256(4);
    assert Pow256(8) == 256 * Pow256(7) == 0x1_0000 * Pow256(6);
  }

  /** The four bytes of a 32-bit host integer. */
  lemma LE4(v: uint32)
    ensures LE(v, 4) == [v % 256, v / 256 % 256, v / 0x1_0000 % 256, v / 0x100_0000]
  {
    assert LE(v, 4) == [v % 256] + LE(v / 256, 3);
    assert LE(v / 256, 3) == [v / 256 % 256] + LE(v / 256 / 256, 2);
    LE2(v / 0x1_0000);
    assert v / 256 / 256 == v / 0x1_0000 && v / 0x1_0000 / 256 == v / 0x100_0000;
  }

  lemma LE2(v: nat)
    requires v < 0x1_0000
    ensures LE(v, 2) == [v % 256, v / 256]
  {
    assert LE(v, 2) == [v % 256] + LE(v / 256, 1);
    assert LE(v / 256, 1) == [v / 256 % 256] + LE(v / 256 / 256, 0);
  }

  /** The number that four bytes make on a little-endian machine. */
  lemma FromLE4(b: seq<byte>)
    requires |b| == 4
    ensures FromLE(b) == b[0] + 0x100 * b[1] as int + 0x1_0000 * b[2] as int + 0x100_0000 * b[3] as int
  {
    assert FromLE(b) == b[0] + 256 * FromLE(b[1..]);
    assert FromLE(b[1..]) == b[1] + 256 * FromLE(b[1..][1..]);
    assert FromLE(b[1..][1..]) == b[2] + 256 * FromLE(b[1..][1..][1..]);
    assert FromLE(b[1..][1..][1..]) == b[3] + 256 * FromLE(b[1..][1..][1..][1..]);
  }

  /** Network byte order: most significant byte first. */
  function BE16(v: uint16): (b: seq<byte>)
    ensures |b| == 2
  {
    [v / 256, v % 256]
  }

  function BE32(v: uint32): (b: seq<byte>)
    ensures |b| == 4
  {
    BE16(v / 0x1_0000) + BE16(v % 0x1_0000)
  }

  function FromBE16(b: seq<byte>): (v: uint16)
    requires |b| == 2
  {
    var high: int := b[0];
    256 * high + b[1]
  }

  lemma FromBE16ofBE16(v: uint16)
    ensures FromBE16(BE16(v)) == v
  {
  }

  function FromBE32(b: seq<byte>): (v: uint32)
    requires |b| == 4
  {
    var high: int := FromBE16(b[..2]);
    0x1_0000 * high + FromBE16(b[2..])
  }

  /** The number that the four bytes of BE32 make, most significant byte first. */
  lemma BE32Bytes(v: uint32)
    ensures var b := BE32(v);
      v == 0x100_0000 * b[0] as int + 0x1_0000 * b[1] as int + 0x100 * b[2] as int + b[3]
  {
    var high: uint16, low: uint16 := v / 0x1_0000, v % 0x1_0000;
    assert BE32(v)[0] == BE16(high)[0] && BE32(v)[1] == BE16(high)[1];
    assert BE32(v)[2] == BE16(low)[0] && BE32(v)[3] == BE16(low)[1];
  }

  lemma FromBE32ofBE32(v: uint32)
    ensures FromBE32(BE32(v)) == v
  {
    assert BE32(v)[..2] == BE16(v / 0x1_0000);
    assert BE32(v)[2..] == BE16(v % 0x1_0000);
  }

  lemma Regroup<T>(x: seq<T>, y: seq<T>, z: seq<T>)
    ensures (x + y) + z == x + (y + z)
  {
  }

  lemma EmptyPlus<T>(x: seq<T>)
    ensures [] + x == x
  {
  }

  lemma PlusEmpty<T>(x: seq<T>)
    ensures x + [] == x
  {
  }

  /** memcpy of src into dst at offset off. */
  method CopyInto(dst: array<byte>, off: nat, src: seq<byte>)
    requires off + |src| <= dst.Length
    modifies dst
    ensures dst[..off + |src|] == old(dst[..off]) + src
    ensures forall i | 0 <= i < off || off + |src| <= i < dst.Length :: dst[i] == old(dst[i])
  {
    forall i | 0 <= i < |src| {
      dst[off + i] := src[i];
    }
  }
}
