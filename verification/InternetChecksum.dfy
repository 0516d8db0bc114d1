/** The Internet checksum of RFC 1071: 16-bit one's complement sums, and the deferred-carry loop
    that computes them. */
module InternetChecksum {
  import opened Bytes
  import opened Bits

  const MAX16: nat := 0xffff

  /** One's complement addition: a carry out of the top comes back in at the bottom. */
  function OnesAdd(a: uint16, b: uint16): uint16 {
    var sum: int := a;
    if sum + b > MAX16 then sum + b - MAX16 else sum + b
  }

  function OnesSum(ws: seq<uint16>): uint16 {
    if ws == [] then 0 else OnesAdd(OnesSum(ws[..|ws| - 1]), ws[|ws| - 1])
  }

  /** The 16-bit words of a buffer on a little-endian machine; an odd last byte counts as it is. */
  function Words(b: seq<byte>): seq<uint16>
    decreases |b|
  {
    if |b| == 0 then []
    else if |b| == 1 then [b[0]]
    else var high: int := b[1]; [b[0] + 256 * high] + Words(b[2..])
  }

  function Checksum16(b: seq<byte>): uint16 {
    MAX16 - OnesSum(Words(b))
  }

  // ---------- The representative modulo 65535 ----------

  function WordSum(ws: seq<uint16>): nat {
    if ws == [] then 0 else WordSum(ws[..|ws| - 1]) + ws[|ws| - 1]
  }

  /** s modulo 65535, in the range 1..65535 unless s is 0. */
  function Rep(s: nat): uint16 {
    if s == 0 then 0 else (s - 1) % MAX16 + 1
  }

  lemma RepShift(s: nat, q: nat)
    requires s > 0
    ensures Rep(s + MAX16 * q) == Rep(s)
  {
    var d, r := (s - 1) / MAX16, (s - 1) % MAX16;
    assert s - 1 + MAX16 * q == MAX16 * (d + q) + r;
    DivUnique(s - 1 + MAX16 * q, MAX16, d + q, r);
  }

  /** Every number is its representative plus a multiple of 65535. */
  lemma RepParts(s: nat) returns (q: nat)
    ensures s == Rep(s) + MAX16 * q
    ensures Rep(s) == 0 <==> s == 0
  {
    q := if s == 0 then 0 else (s - 1) / MAX16;
  }

  lemma RepAdd(s: nat, w: nat)
    ensures Rep(Rep(s) + w) == Rep(s + w)
  {
    var q := RepParts(s);
    if s > 0 {
      RepShift(Rep(s) + w, q);
    }
  }

  lemma RepSmall(x: nat)
    requires x <= MAX16
    ensures Rep(x) == x
  {
  }

  lemma OnesAddIsRep(a: uint16, b: uint16)
    ensures OnesAdd(a, b) == Rep(a + b)
  {
  }

  /** One's complement sums are sums modulo 65535. */
  lemma {:induction false} OnesSumIsRep(ws: seq<uint16>)
    ensures OnesSum(ws) == Rep(WordSum(ws))
  {
    if ws != [] {
      var front, last := ws[..|ws| - 1], ws[|ws| - 1];
      OnesSumIsRep(front);
      OnesAddIsRep(OnesSum(front), last);
      RepAdd(WordSum(front), last);
    }
  }

  lemma {:induction false} WordSumSplit(ws: seq<uint16>, vs: seq<uint16>)
    ensures WordSum(ws + vs) == WordSum(ws) + WordSum(vs)
  {
    if vs == [] {
      assert ws + vs == ws;
    } else {
      WordSumSplit(ws, vs[..|vs| - 1]);
      assert (ws + vs)[..|ws + vs| - 1] == ws + vs[..|vs| - 1];
    }
  }

  // ---------- cksum ----------

  /** One turn of the carry-folding loop keeps the representative and gets smaller. */
  lemma FoldStep(sum: nat)
    requires sum / 0x1_0000 != 0
    ensures Rep(sum % 0x1_0000 + sum / 0x1_0000) == Rep(sum)
    ensures sum % 0x1_0000 + sum / 0x1_0000 < sum
  {
    var q, r := sum / 0x1_0000, sum % 0x1_0000;
    RepShift(r + q, q);
    assert r + q + MAX16 * q == sum;
  }

  /** cksum: adds the words without minding carries, folds the carries in, complements. */
  method Cksum(data: array<byte>, sz: int) returns (sum16: uint16)
    requires sz <= data.Length
    ensures sum16 == Checksum16(if sz > 0 then data[..sz] else [])
  {
    ghost var b := if sz > 0 then data[..sz] else [];
    var sum, ptr, left := 0, 0, sz;
    while left > 1
      invariant 0 <= ptr && (ptr + left == sz || (ptr == 0 && left == sz)) && (sz > 0 ==> left >= 0)
      invariant ptr <= |b|
      invariant sum + WordSum(Words(b[ptr..])) == WordSum(Words(b))
      invariant sum >= 0
    {
      var low: int, high: int := data[ptr], data[ptr + 1];
      FirstWord(b, ptr);
      sum := sum + low + 256 * high;
      ptr := ptr + 2;
      left := left - 2;
    }
    if left > 0 {
      assert b[ptr..] == [data[ptr]];
      assert WordSum([data[ptr] as uint16]) == WordSum([]) + data[ptr];
      sum := sum + data[ptr];
    } else {
      assert b[ptr..] == [];
    }
    ghost var total := sum;
    while sum / 0x1_0000 != 0
      invariant sum >= 0 && Rep(sum) == Rep(total)
      decreases sum
    {
      FoldStep(sum);
      sum := sum % 0x1_0000 + sum / 0x1_0000;
    }
    RepSmall(sum);
    OnesSumIsRep(Words(b));
    sum16 := MAX16 - sum;
  }

  lemma FirstWord(b: seq<byte>, ptr: nat)
    requires ptr + 2 <= |b|
    ensures WordSum(Words(b[ptr..])) == b[ptr] + 256 * b[ptr + 1] as int + WordSum(Words(b[ptr + 2..]))
  {
    var word: uint16 := b[ptr] + 256 * b[ptr + 1] as int;
    assert b[ptr..][2..] == b[ptr + 2..];
    assert Words(b[ptr..]) == [word] + Words(b[ptr + 2..]);
    WordSumSplit([word], Words(b[ptr + 2..]));
    assert WordSum([word]) == WordSum([]) + word;
  }

  /** The sum that the program means, byte by byte: every second byte counts 256 times. */
  function ByteSum(b: seq<byte>, even: bool): nat {
    if b == [] then 0 else (if even then 1 else 256) * b[0] as int + ByteSum(b[1..], !even)
  }

  lemma ByteSumTwo(b: seq<byte>)
    requires |b| >= 2
    ensures ByteSum(b, true) == b[0] as int + 256 * b[1] as int + ByteSum(b[2..], true)
  {
    assert b[1..][1..] == b[2..];
    assert ByteSum(b, true) == 1 * b[0] as int + ByteSum(b[1..], false);
    assert ByteSum(b[1..], false) == 256 * b[1] as int + ByteSum(b[2..], true);
  }

  lemma {:induction false} WordSumIsByteSum(b: seq<byte>)
    ensures WordSum(Words(b)) == ByteSum(b, true)
    decreases |b|
  {
    if |b| >= 2 {
      WordSumIsByteSum(b[2..]);
      assert b[0..] == b;
      FirstWord(b, 0);
      ByteSumTwo(b);
    } else if |b| == 1 {
      assert Words(b) == [b[0]] && WordSum([b[0] as uint16]) == WordSum([]) + b[0];
      assert b[1..] == [];
    }
  }

  /** The checksum of any buffer as a number: 65535 for a sum of 0, and otherwise what is missing from
      the sum to the next multiple of 65535, so that 0 stands for 65535. */
  lemma ChecksumIs(b: seq<byte>)
    ensures var s := ByteSum(b, true);
      Checksum16(b) == if s == 0 then 65535 else 65534 - (s - 1) % 65535
  {
    OnesSumIsRep(Words(b));
    WordSumIsByteSum(b);
  }

  // ---------- Filling in a checksum ----------

  lemma {:induction false} WordSumUpdate(ws: seq<uint16>, p: nat, w: uint16)
    requires p < |ws|
    ensures WordSum(ws[p := w]) + ws[p] == WordSum(ws) + w
  {
    var n := |ws| - 1;
    if p < n {
      WordSumUpdate(ws[..n], p, w);
      assert ws[p := w][..n] == ws[..n][p := w];
    } else {
      assert ws[p := w][..n] == ws[..n];
    }
  }

  /** The words re-check to zero after word p is overwritten with their checksum, exactly when
      that word was zero beforehand, or was 0xffff and some other word is not zero. */
  lemma RecheckIff(ws: seq<uint16>, p: nat)
    requires p < |ws|
    ensures MAX16 - OnesSum(ws[p := MAX16 - OnesSum(ws)]) == 0 <==>
      ws[p] == 0 || (ws[p] == MAX16 && WordSum(ws) > MAX16)
  {
    var c := MAX16 - OnesSum(ws);
    var filled := ws[p := c];
    OnesSumIsRep(ws);
    OnesSumIsRep(filled);
    WordSumUpdate(ws, p, c);
    WordSumUpdate(ws, p, 0);
    var others := WordSum(ws[p := 0]);
    var q := RepParts(WordSum(ws));
    assert WordSum(filled) + ws[p] == MAX16 * (q + 1);
    RecheckSum(WordSum(filled), ws[p], q + 1);
  }

  /** A sum that misses a multiple of 65535 by w has representative 65535 only for w = 0 or 65535. */
  lemma RecheckSum(s: nat, w: uint16, q: nat)
    requires s + w == MAX16 * q && 0 < q
    ensures Rep(s) == MAX16 <==> s > 0 && (w == 0 || w == MAX16)
  {
    if s > 0 {
      if w == 0 {
        DivUnique(s - 1, MAX16, q - 1, MAX16 - 1);
      } else if w == MAX16 {
        assert q > 1;
        DivUnique(s - 1, MAX16, q - 2, MAX16 - 1);
      } else {
        DivUnique(s - 1, MAX16, q - 1, MAX16 - w - 1);
      }
    }
  }

  // ---------- Byte order independence ----------

  function Swap(w: uint16): uint16 {
    w % 256 * 256 + w / 256
  }

  function SwapAll(ws: seq<uint16>): (vs: seq<uint16>)
    ensures |vs| == |ws|
  {
    if ws == [] then [] else SwapAll(ws[..|ws| - 1]) + [Swap(ws[|ws| - 1])]
  }

  /** Swapping the bytes of a word is multiplying it by 256. */
  lemma SwapIsRep(w: uint16)
    ensures Swap(w) == Rep(256 * w as int)
  {
    if w != 0 {
      var h, l := w as int / 256, w as int % 256;
      assert 256 * w as int == (h + 256 * l) + MAX16 * h;
      RepShift(h + 256 * l, h);
      RepSmall(h + 256 * l);
    }
  }

  lemma RepScaled(s: nat)
    ensures Rep(256 * Rep(s) as int) == Rep(256 * s)
  {
    var q := RepParts(s);
    if s > 0 {
      assert 256 * s == 256 * Rep(s) as int + MAX16 * (256 * q);
      RepShift(256 * Rep(s) as int, 256 * q);
    }
  }

  lemma {:induction false} SwappedSum(ws: seq<uint16>)
    ensures Rep(WordSum(SwapAll(ws))) == Rep(256 * WordSum(ws))
  {
    if ws != [] {
      var front, last := ws[..|ws| - 1], ws[|ws| - 1];
      SwappedSum(front);
      SwapIsRep(last);
      assert SwapAll(ws)[..|ws| - 1] == SwapAll(front);
      RepAdd(WordSum(SwapAll(front)), Swap(last));
      RepAdd(256 * WordSum(front), Swap(last));
      RepAdd(256 * last as int, 256 * WordSum(front));
    }
  }

  /** Byte order independence (section 2(B) of RFC 1071): swapping the bytes of every word swaps
      the bytes of the sum and of the checksum. */
  lemma ByteOrderIndependent(ws: seq<uint16>)
    ensures OnesSum(SwapAll(ws)) == Swap(OnesSum(ws))
    ensures MAX16 - OnesSum(SwapAll(ws)) == Swap(MAX16 - OnesSum(ws))
  {
    OnesSumIsRep(ws);
    OnesSumIsRep(SwapAll(ws));
    SwappedSum(ws);
    RepScaled(WordSum(ws));
    SwapIsRep(OnesSum(ws));
    SwapComplement(OnesSum(ws));
  }

  /** A buffer with the bytes of each word exchanged. */
  function SwapPairs(b: seq<byte>): (s: seq<byte>)
    requires |b| % 2 == 0
    ensures |s| == |b|
    decreases |b|
  {
    if b == [] then [] else [b[1], b[0]] + SwapPairs(b[2..])
  }

  lemma {:induction false} SwapAllCons(w: uint16, ws: seq<uint16>)
    ensures SwapAll([w] + ws) == [Swap(w)] + SwapAll(ws)
  {
    if ws == [] {
      assert [w] + ws == [w];
      assert SwapAll([w]) == SwapAll([]) + [Swap(w)];
    } else {
      SwapAllCons(w, ws[..|ws| - 1]);
      assert ([w] + ws)[..|ws|] == [w] + ws[..|ws| - 1];
    }
  }

  function Word(low: byte, high: byte): uint16 {
    var h: int := high;
    low + 256 * h
  }

  lemma WordsCons(b: seq<byte>)
    requires |b| >= 2
    ensures Words(b) == [Word(b[0], b[1])] + Words(b[2..])
  {
  }

  lemma {:induction false} WordsOfPairs(b: seq<byte>)
    requires |b| % 2 == 0
    ensures Words(SwapPairs(b)) == SwapAll(Words(b))
    decreases |b|
  {
    if b != [] {
      var w, v: uint16 := Word(b[0], b[1]), Word(b[1], b[0]);
      WordsOfPairs(b[2..]);
      WordsCons(b);
      WordsCons(SwapPairs(b));
      assert SwapPairs(b)[2..] == SwapPairs(b[2..]);
      SwapAllCons(w, Words(b[2..]));
      DivUnique(w, 256, b[1], b[0]);
      assert Swap(w) == v;
    }
  }

  lemma ChecksumOfWords(b: seq<byte>, ws: seq<uint16>)
    requires Words(b) == ws
    ensures Checksum16(b) == MAX16 - OnesSum(ws)
  {
  }

  lemma SwappedChecksum(ws: seq<uint16>, c: uint16)
    requires c == MAX16 - OnesSum(ws)
    ensures MAX16 - OnesSum(SwapAll(ws)) == Swap(c)
  {
    ByteOrderIndependent(ws);
  }

  /** The same for buffers: a machine of the other byte order reads a buffer as SwapPairs of it, and
      computes the same checksum bytes. */
  lemma SwappedBuffer(b: seq<byte>)
    requires |b| % 2 == 0
    ensures Checksum16(SwapPairs(b)) == Swap(Checksum16(b))
  {
    WordsOfPairs(b);
    ChecksumOfWords(SwapPairs(b), SwapAll(Words(b)));
    SwappedChecksum(Words(b), Checksum16(b));
  }

  lemma SwapComplement(w: uint16)
    ensures Swap(MAX16 - w) == MAX16 - Swap(w)
  {
    var h, l := w as int / 256, w as int % 256;
    DivUnique(MAX16 - w, 256, 255 - h, 255 - l);
  }
}
