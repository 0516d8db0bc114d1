/** The packet checksum of the broadcast file transfer, and the header that send fills in. */
module PacketChecksum {
  import opened Bytes
  import opened Bits
  import opened InternetChecksum

  const MOD_ADLER: nat := 1000000007

  // PACKET_SIZE - sizeof(hdr_t) - 4 - 4
  const DATA_SIZE: nat := 1500 - 28 - 4 - 4

  // ---------- adler32 ----------

  /** The value of the accumulator a, without its modulus. */
  function SumA(d: seq<byte>): nat {
    if d == [] then 1 else SumA(d[..|d| - 1]) + d[|d| - 1]
  }

  /** The value of the accumulator b, without its modulus: the sum of all values of a. */
  function SumB(d: seq<byte>): nat {
    if d == [] then 0 else SumB(d[..|d| - 1]) + SumA(d)
  }

  /** Each byte weighted by the number of bytes from it to the end. */
  function Weighted(d: seq<byte>): nat {
    if d == [] then 0 else |d| * d[0] + Weighted(d[1..])
  }

  lemma {:induction false} WeightedSnoc(d: seq<byte>, v: byte)
    ensures Weighted(d + [v]) + 1 == Weighted(d) + SumA(d) + v
  {
    if d == [] {
      assert d + [v] == [v];
      assert Weighted([v]) == 1 * v + Weighted([]);
    } else {
      WeightedSnoc(d[1..], v);
      assert (d + [v])[1..] == d[1..] + [v];
      SumACons(d);
      assert (|d| + 1) * d[0] == |d| * d[0] + d[0];
    }
  }

  lemma {:induction false} SumACons(d: seq<byte>)
    requires d != []
    ensures SumA(d) == d[0] + SumA(d[1..])
  {
    if |d| == 1 {
      assert d[..0] == [] && d[1..] == [];
    } else {
      SumACons(d[..|d| - 1]);
      assert d[1..][..|d| - 2] == d[..|d| - 1][1..];
    }
  }

  /** The closed form of the second accumulator. */
  lemma {:induction false} SumBClosed(d: seq<byte>)
    ensures SumB(d) == |d| + Weighted(d)
  {
    if d != [] {
      var front, last := d[..|d| - 1], d[|d| - 1];
      SumBClosed(front);
      WeightedSnoc(front, last);
      assert d == front + [last];
    }
  }

  /** Bounds on the accumulators. */
  lemma {:induction false} SumBounds(d: seq<byte>)
    ensures SumA(d) <= 1 + 255 * |d|
    ensures 2 * SumB(d) <= 2 * |d| + 255 * |d| * (|d| + 1)
  {
    if d != [] {
      SumBounds(d[..|d| - 1]);
      var n: int := |d|;
      assert 255 * (n - 1) * n + 510 * n == 255 * n * (n + 1);
    }
  }

  /** On a packet's data neither modulus takes effect. */
  lemma NoModulus(d: seq<byte>)
    requires |d| <= DATA_SIZE
    ensures SumA(d) < MOD_ADLER && SumB(d) < MOD_ADLER
  {
    SumBounds(d);
    var n: int := |d|;
    assert 255 * n * (n + 1) <= 255 * DATA_SIZE * (DATA_SIZE + 1) by {
      assert n * (n + 1) <= DATA_SIZE * (DATA_SIZE + 1);
    }
  }

  /** (b << 16) | a in 32 bits. a may be wider than 16 bits, and then the two overlap. */
  function Join(a: uint32, b: uint32): (v: uint32) {
    Pow2Values();
    OrBound(Wrap32(b * 0x1_0000), a, 32);
    Or(Wrap32(b * 0x1_0000), a)
  }

  function Adler(d: seq<byte>): uint32 {
    Join(SumA(d) % MOD_ADLER, SumB(d) % MOD_ADLER)
  }

  lemma AddMod(x: nat, y: nat)
    ensures (x % MOD_ADLER + y) % MOD_ADLER == (x + y) % MOD_ADLER
  {
    var q := x / MOD_ADLER;
    var z := x % MOD_ADLER + y;
    DivUnique(x + y, MOD_ADLER, q + z / MOD_ADLER, z % MOD_ADLER);
  }

  lemma SumsSnoc(d: seq<byte>, v: byte)
    ensures SumA(d + [v]) == SumA(d) + v
    ensures SumB(d + [v]) == SumB(d) + SumA(d + [v])
  {
    assert (d + [v])[..|d|] == d;
  }

  /** One turn of the loop: no addition wraps, and the moduli may be taken at the end. */
  lemma AdlerStep(d: seq<byte>, v: byte, a: nat, b: nat, a1: nat)
    requires a == SumA(d) % MOD_ADLER && b == SumB(d) % MOD_ADLER && a1 == (a + v) % MOD_ADLER
    ensures a1 == SumA(d + [v]) % MOD_ADLER && (b + a1) % MOD_ADLER == SumB(d + [v]) % MOD_ADLER
  {
    SumsSnoc(d, v);
    AddMod(SumA(d), v);
    AddMod(SumB(d), a1);
    AddMod(SumA(d + [v]), SumB(d));
  }

  /** adler32: the loop, with its 32-bit additions. */
  method Adler32(data: seq<byte>) returns (v: uint32)
    ensures v == Adler(data)
  {
    var a: uint32, b: uint32 := 1, 0;
    for index := 0 to |data|
      invariant a == SumA(data[..index]) % MOD_ADLER
      invariant b == SumB(data[..index]) % MOD_ADLER
    {
      ghost var d, a0, b0 := data[..index], a, b;
      a := Wrap32(a + data[index]) % MOD_ADLER;
      b := Wrap32(b + a) % MOD_ADLER;
      AdlerStep(d, data[index], a0, b0, a);
      assert data[..index + 1] == d + [data[index]];
    }
    assert data[..|data|] == data;
    v := Join(a, b);
  }

  lemma SmallMod(x: nat)
    requires x < MOD_ADLER
    ensures x % MOD_ADLER == x
  {
  }

  /** For a packet's data the result is made of the plain weighted sums. */
  lemma AdlerClosedForm(d: seq<byte>)
    requires |d| <= DATA_SIZE
    ensures SumA(d) < MOD_ADLER && |d| + Weighted(d) < MOD_ADLER
    ensures Adler(d) == Join(SumA(d), |d| + Weighted(d))
  {
    NoModulus(d);
    SumBClosed(d);
    SmallMod(SumA(d));
    SmallMod(SumB(d));
  }

  lemma LowHalf(a: uint32, b: uint32)
    ensures Join(a, b) % 0x1_0000 == a % 0x1_0000
  {
    Pow2Values();
    var high := b % 0x1_0000;
    assert b as int * 0x1_0000 == 0x1_0000_0000 * (b as int / 0x1_0000) + high * 0x1_0000;
    DivUnique(b as int * 0x1_0000, 0x1_0000_0000, b as int / 0x1_0000, high * 0x1_0000);
    assert Wrap32(b as int * 0x1_0000) == high * Pow2(16);
    OrKeepsLow(high, a, 16);
  }

  /** The two halves of the result: below, a; above, the low half of b, ORed with what of a is wider
      than 16 bits. */
  lemma JoinHalves(a: uint32, b: uint32)
    ensures Join(a, b) % 0x1_0000 == a % 0x1_0000
    ensures Join(a, b) / 0x1_0000 == Or(b % 0x1_0000, a / 0x1_0000)
  {
    LowHalf(a, b);
    Shifted(b);
    Pow2Values();
    OrShift(b % 0x1_0000, a, 16, 0x1_0000, b % 0x1_0000 * 0x1_0000, a / 0x1_0000);
  }

  lemma Shifted(b: uint32)
    ensures Wrap32(b * 0x1_0000) == b % 0x1_0000 * Pow2(16)
  {
    Pow2Values();
    DivUnique(b * 0x1_0000, 0x1_0000_0000, b / 0x1_0000, b % 0x1_0000 * 0x1_0000);
  }

  /** The result for any data, half by half. */
  lemma AdlerHalves(d: seq<byte>)
    ensures Adler(d) % 0x1_0000 == SumA(d) % 1000000007 % 0x1_0000
    ensures Adler(d) / 0x1_0000 ==
      Or((|d| + Weighted(d)) % 1000000007 % 0x1_0000, SumA(d) % 1000000007 / 0x1_0000)
  {
    SumBClosed(d);
    JoinHalves(SumA(d) % MOD_ADLER, SumB(d) % MOD_ADLER);
  }

  lemma NoHighBits(v: nat, b: nat, a: nat)
    requires a < 0x1_0000 && v % 0x1_0000 == a && v / 0x1_0000 == Or(b, a / 0x1_0000)
    ensures v == b * 0x1_0000 + a
  {
    assert a / 0x1_0000 == 0;
    OrZero(b);
  }

  /** For a packet's data: the lower half is the plain sum, the upper half the weighted sum, with the
      bits of the plain sum above the 16th ORed in, if there are any. */
  lemma PacketHalves(d: seq<byte>)
    requires |d| <= 1464
    ensures Adler(d) % 0x1_0000 == SumA(d) % 0x1_0000
    ensures Adler(d) / 0x1_0000 == Or((|d| + Weighted(d)) % 0x1_0000, SumA(d) / 0x1_0000)
  {
    AdlerHalves(d);
    AdlerClosedForm(d);
    SmallMod(SumA(d));
    SmallMod(|d| + Weighted(d));
  }

  lemma SmallPacketSum(d: seq<byte>)
    requires |d| <= 1464 && SumA(d) < 0x1_0000
    ensures Adler(d) == (|d| + Weighted(d)) % 0x1_0000 * 0x1_0000 + SumA(d)
  {
    PacketHalves(d);
    NoHighBits(Adler(d), (|d| + Weighted(d)) % 0x1_0000, SumA(d));
  }

  lemma {:induction false} SumsOfZeros(d: seq<byte>)
    requires forall i | 0 <= i < |d| :: d[i] == 0
    ensures SumA(d) == 1 && Weighted(d) == 0
  {
    if d != [] {
      SumsOfZeros(d[..|d| - 1]);
      SumsOfZeros(d[1..]);
    }
  }

  /** A packet of 1464 zero bytes: (1464 << 16) | 1. */
  lemma ZeroPacket(d: seq<byte>)
    requires |d| == 1464 && forall i | 0 <= i < |d| :: d[i] == 0
    ensures Adler(d) == 95944705
  {
    SumsOfZeros(d);
    SmallPacketSum(d);
  }

  // ---------- checksum ----------

  datatype Packet = Packet(ip: seq<byte>, sessSeq: uint32, checksum: uint32, data: seq<byte>)

  function PacketSum(p: Packet): uint32 {
    Pow2Values();
    XorBound(Adler(p.data), p.sessSeq, 32);
    Xor(Adler(p.data), p.sessSeq)
  }

  /** The packet's checksum, bit by bit. */
  lemma ChecksumBits(p: Packet, k: nat)
    ensures Bit(PacketSum(p), k) <==> Bit(Adler(p.data), k) != Bit(p.sessSeq, k)
  {
    XorBits(Adler(p.data), p.sessSeq, k);
  }

  lemma XorInjective(x: nat, y: nat, s: nat)
    requires Xor(x, s) == Xor(y, s)
    ensures x == y
  {
    XorUndone(x, s);
    XorUndone(y, s);
  }

  /** Packets that differ in their session and sequence number only have different checksums. */
  lemma SeqChangeDetected(p: Packet, q: Packet)
    requires p.data == q.data && p.sessSeq != q.sessSeq
    ensures PacketSum(p) != PacketSum(q)
  {
    if PacketSum(p) == PacketSum(q) {
      XorCommutes(Adler(p.data), p.sessSeq);
      XorCommutes(Adler(q.data), q.sessSeq);
      XorInjective(p.sessSeq, q.sessSeq, Adler(p.data));
    }
  }

  lemma {:induction false} SumAUpdate(d: seq<byte>, i: nat, v: byte)
    requires i < |d|
    ensures SumA(d[i := v]) + d[i] == SumA(d) + v
  {
    var n := |d| - 1;
    if i < n {
      SumAUpdate(d[..n], i, v);
      assert d[i := v][..n] == d[..n][i := v];
    } else {
      assert d[i := v][..n] == d[..n];
    }
  }

  /** So do packets that differ in exactly one data byte. */
  lemma ByteChangeDetected(p: Packet, q: Packet, i: nat)
    requires i < |p.data| == |q.data| <= DATA_SIZE && q.sessSeq == p.sessSeq
    requires q.data == p.data[i := q.data[i]] && q.data[i] != p.data[i]
    ensures PacketSum(p) != PacketSum(q)
  {
    SumAUpdate(p.data, i, q.data[i]);
    NearNumbers(SumA(p.data), SumA(q.data));
    AdlerLow(p.data);
    AdlerLow(q.data);
    if PacketSum(p) == PacketSum(q) {
      XorInjective(Adler(p.data), Adler(q.data), p.sessSeq);
    }
  }

  lemma AdlerLow(d: seq<byte>)
    requires |d| <= DATA_SIZE
    ensures Adler(d) % 0x1_0000 == SumA(d) % 0x1_0000
  {
    AdlerClosedForm(d);
    LowHalf(SumA(d), |d| + Weighted(d));
  }

  lemma NearNumbers(x: nat, y: nat)
    requires x != y && x < y + 256 && y < x + 256
    ensures x % 0x1_0000 != y % 0x1_0000
  {
    assert x == x / 0x1_0000 * 0x1_0000 + x % 0x1_0000;
    assert y == y / 0x1_0000 * 0x1_0000 + y % 0x1_0000;
  }

  // ---------- send ----------

  const IP_SIZE: nat := 20

  /** The 20 bytes of struct ip after send has filled them in, with the given checksum field. Source
      and destination are both set to the destination address. */
  function IpHeader(dst: seq<byte>, sum: uint16): (h: seq<byte>)
    requires |dst| == 4
    ensures |h| == IP_SIZE
  {
    [0x45, 0, (DATA_SIZE + 28) / 256, (DATA_SIZE + 28) % 256, 0, 0, 0, 0, 64, 153, sum % 256, sum / 256,
     dst[0], dst[1], dst[2], dst[3], dst[0], dst[1], dst[2], dst[3]]
  }

  lemma HeaderIs(h: seq<byte>, dst: seq<byte>, sum: uint16)
    requires |dst| == 4 && |h| == IP_SIZE
    requires h[0] == 0x45 && h[1] == 0 && h[2] == (DATA_SIZE + 28) / 256 && h[3] == (DATA_SIZE + 28) % 256
    requires h[4] == h[5] == h[6] == h[7] == 0 && h[8] == 64 && h[9] == 153
    requires h[10] == sum % 256 && h[11] == sum / 256
    requires h[12] == dst[0] && h[13] == dst[1] && h[14] == dst[2] && h[15] == dst[3]
    requires h[16] == dst[0] && h[17] == dst[1] && h[18] == dst[2] && h[19] == dst[3]
    ensures h == IpHeader(dst, sum)
  {
  }

  /** The header's fields as section 3.1 of RFC 791 reads them: version 4, 5 words, 1492 bytes in all,
      64 hops, protocol 153; the checksum in the sender's own byte order; the destination twice. */
  lemma HeaderFields(dst: seq<byte>, sum: uint16)
    requires |dst| == 4
    ensures var h := IpHeader(dst, sum);
      && h[0] / 16 == 4 && h[0] % 16 == 5 && h[1] == 0
      && 256 * h[2] as int + h[3] == 1492
      && h[4..8] == [0, 0, 0, 0] && h[8] == 64 && h[9] == 153
      && h[10] as int + 256 * h[11] as int == sum
      && h[12..16] == dst && h[16..20] == dst
  {
    assert IpHeader(dst, sum)[12..16] == dst && IpHeader(dst, sum)[16..20] == dst;
  }

  /** The assignments to the fields of struct ip but ip_sum. */
  method FillFields(ip: array<byte>, dst: seq<byte>)
    requires ip.Length == IP_SIZE && |dst| == 4
    modifies ip
    ensures ip[..] == IpHeader(dst, FromLE16([old(ip[10]), old(ip[11])]))
  {
    LEofFromLE16(ip[10], ip[11]);
    ip[0], ip[1], ip[4], ip[5], ip[6], ip[7] := 0x45, 0, 0, 0, 0, 0;
    ip[2], ip[3] := (DATA_SIZE + 28) / 256, (DATA_SIZE + 28) % 256;
    ip[8], ip[9] := 64, 153;
    ip[12], ip[13], ip[14], ip[15] := dst[0], dst[1], dst[2], dst[3];
    ip[16], ip[17], ip[18], ip[19] := dst[0], dst[1], dst[2], dst[3];
    HeaderIs(ip[..], dst, FromLE16([ip[10], ip[11]]));
  }

  /** All of the IP header. Word 5 is read before it is written: the checksum covers whatever the
      caller left in ip_sum. */
  method FillIp(ip: array<byte>, dst: seq<byte>)
    requires ip.Length == IP_SIZE && |dst| == 4
    modifies ip
    ensures ip[..] == IpHeader(dst, Checksum16(IpHeader(dst, FromLE16([old(ip[10]), old(ip[11])]))))
  {
    ghost var before := FromLE16([ip[10], ip[11]]);
    FillFields(ip, dst);
    assert ip[..IP_SIZE] == ip[..];
    var sum := Cksum(ip, IP_SIZE);
    PutSum(ip, dst, before, sum);
  }

  method PutSum(ip: array<byte>, dst: seq<byte>, ghost before: uint16, sum: uint16)
    requires |dst| == 4 && ip[..] == IpHeader(dst, before)
    modifies ip
    ensures ip[..] == IpHeader(dst, sum)
  {
    assert ip.Length == |ip[..]| == IP_SIZE;
    ip[10], ip[11] := sum % 256, sum / 256;
  }

  /** checksum: the packet's Adler sum and its session and sequence number. */
  method Checksum(p: Packet) returns (v: uint32)
    ensures v == PacketSum(p)
  {
    var value := Adler32(p.data);
    Pow2Values();
    XorBound(value, p.sessSeq, 32);
    v := Xor(value, p.sessSeq);
  }

  /** send works on its own copy of the packet. */
  method Fill(p: Packet, dst: seq<byte>) returns (sent: Packet)
    requires |p.ip| == IP_SIZE && |dst| == 4
    ensures sent ==
      p.(ip := IpHeader(dst, Checksum16(IpHeader(dst, FromLE16([p.ip[10], p.ip[11]])))), checksum := PacketSum(p))
  {
    var checksum := Checksum(p);
    var ip := new byte[IP_SIZE](i requires 0 <= i < IP_SIZE => p.ip[i]);
    FillIp(ip, dst);
    sent := p.(ip := ip[..], checksum := checksum);
  }

  function FromLE16(b: seq<byte>): uint16
    requires |b| == 2
  {
    var high: int := b[1];
    b[0] + 256 * high
  }

  lemma LEofFromLE16(low: byte, high: byte)
    ensures FromLE16([low, high]) % 256 == low && FromLE16([low, high]) / 256 == high
  {
    LowByte(low, high);
  }

  /** Word 5 of the header is the checksum field; the other nine do not depend on it. */
  lemma HeaderWords(dst: seq<byte>, sum: uint16)
    requires |dst| == 4
    ensures |Words(IpHeader(dst, 0))| == 10 && Words(IpHeader(dst, sum)) == Words(IpHeader(dst, 0))[5 := sum]
    ensures Words(IpHeader(dst, 0))[0] == 0x45
  {
    WordsAt(IpHeader(dst, sum), 5);
    WordsAt(IpHeader(dst, 0), 5);
    forall k | 0 <= k < 10
      ensures Words(IpHeader(dst, sum))[k] == if k == 5 then sum else Words(IpHeader(dst, 0))[k]
    {
      WordsAt(IpHeader(dst, sum), k);
      WordsAt(IpHeader(dst, 0), k);
    }
    WordsAt(IpHeader(dst, 0), 0);
  }

  lemma {:induction false} WordsAt(b: seq<byte>, k: nat)
    requires |b| % 2 == 0 && 2 * k + 1 < |b|
    ensures |Words(b)| == |b| / 2
    ensures Words(b)[k] == b[2 * k] + 256 * b[2 * k + 1] as int
    decreases k
  {
    WordsLength(b);
    if k > 0 {
      WordsAt(b[2..], k - 1);
    }
  }

  lemma {:induction false} WordsLength(b: seq<byte>)
    requires |b| % 2 == 0
    ensures |Words(b)| == |b| / 2
    decreases |b|
  {
    if b != [] {
      WordsLength(b[2..]);
    }
  }

  /** A header that send has filled in re-checks to zero exactly when the caller's ip_sum was 0 or
      0xffff. */
  lemma SentHeaderRechecks(dst: seq<byte>, before: uint16)
    requires |dst| == 4
    ensures Checksum16(IpHeader(dst, Checksum16(IpHeader(dst, before)))) == 0 <==> before == 0 || before == 0xffff
  {
    var ws := Words(IpHeader(dst, before));
    var zero := Words(IpHeader(dst, 0));
    HeaderWords(dst, before);
    HeaderWords(dst, Checksum16(IpHeader(dst, before)));
    assert ws[5] == before && zero[5 := MAX16 - OnesSum(ws)] == ws[5 := MAX16 - OnesSum(ws)];
    RecheckIff(ws, 5);
    WordSumUpdate(ws, 0, 0);
    WordSumUpdate(ws[0 := 0], 5, 0);
  }
}
