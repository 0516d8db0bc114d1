/** Cutting the compressed archive into numbered chunks, and putting chunks back together. */
module Chunks {
  import opened Bytes

  // TOTAL_SIZE - HEADER_SIZE - sizeof(uint32_t)
  const DATA_SIZE: nat := 1200 - 28 - 4

  /** Bits in the acknowledgement bit set that fills a packet's data field. */
  const BITS: nat := DATA_SIZE * 8

  /** What a data_t points at, and what fills a packet's data field. */
  type Piece = d: seq<byte> | |d| <= DATA_SIZE witness []
  type Data = d: seq<byte> | |d| == DATA_SIZE witness Zeros(DATA_SIZE)

  function Min(a: nat, b: nat): nat { if a < b then a else b }

  function ChunkCount(size: nat): nat { (size + DATA_SIZE - 1) / DATA_SIZE }

  /** Chunk k, for k from 1; only the last one may be shorter than DATA_SIZE. */
  function Slice(comp: seq<byte>, k: nat): Piece
    requires 1 <= k <= ChunkCount(|comp|)
  {
    comp[(k - 1) * DATA_SIZE..Min(k * DATA_SIZE, |comp|)]
  }

  /** What the client sends under key k. Key 0 is the struct data_t holding the size: a 64-bit
      integer followed by a null pointer. */
  function Entry(comp: seq<byte>, k: nat): Piece
    requires k <= ChunkCount(|comp|)
  {
    if k == 0 then LE(|comp|, 8) + Zeros(8) else Slice(comp, k)
  }

  function Entries(comp: seq<byte>): map<nat, Piece> {
    map k: nat | k <= ChunkCount(|comp|) :: Entry(comp, k)
  }

  /** The data field of the packet: the entry, padded with zeros by wrap_send. */
  function Padded(d: Piece): Data
  {
    d + Zeros(DATA_SIZE - |d|)
  }

  function Payload(comp: seq<byte>, k: nat): Data
    requires k <= ChunkCount(|comp|)
  {
    Padded(Entry(comp, k))
  }

  /** The size field of a packet 0, narrowed to uint32_t as the server does. */
  function SizeField(data: Data): uint32
  {
    Wrap32(FromLE(data[..8]))
  }

  lemma SizeFieldOfPayload(comp: seq<byte>)
    requires |comp| < 0x1_0000_0000
    ensures SizeField(Payload(comp, 0)) == |comp|
  {
    Pow256Values();
    FromLEofLE(|comp|, 8);
    assert Payload(comp, 0)[..8] == LE(|comp|, 8);
  }

  /** Any packet 0, genuine or not, is read as its first four bytes, least significant first. */
  lemma SizeFieldBytes(data: Data)
    ensures SizeField(data) ==
      data[0] + 0x100 * data[1] as int + 0x1_0000 * data[2] as int + 0x100_0000 * data[3] as int
  {
    var low, high := data[..8][..4], data[..8][4..];
    FromLE4(low);
    FromLEParts(data[..8]);
    Pow256Values();
    assert FromLE(data[..8]) == FromLE(low) + 0x1_0000_0000 * FromLE(high);
    assert FromLE(low) < 0x1_0000_0000;
    LowWord(FromLE(low), FromLE(high));
  }

  lemma LowWord(low: uint32, high: nat)
    ensures Wrap32(low + 0x1_0000_0000 * high) == low
  {
  }

  lemma FromLEParts(b: seq<byte>)
    requires |b| == 8
    ensures FromLE(b) == FromLE(b[..4]) + 0x1_0000_0000 * FromLE(b[4..])
  {
    FromLE4(b[..4]);
    assert FromLE(b) == b[0] + 256 * FromLE(b[1..]);
    assert FromLE(b[1..]) == b[1] + 256 * FromLE(b[2..]) by { assert b[1..][1..] == b[2..]; }
    assert FromLE(b[2..]) == b[2] + 256 * FromLE(b[3..]) by { assert b[2..][1..] == b[3..]; }
    assert FromLE(b[3..]) == b[3] + 256 * FromLE(b[4..]) by { assert b[3..][1..] == b[4..]; }
  }

  /** n chunks of 1168 bytes are just enough. */
  lemma ChunkCountIs(size: nat)
    ensures size <= 1168 * ChunkCount(size) < size + 1168
  {
  }

  /** Every byte of every packet's data field: 1168 bytes of the blob from 1168 * (k - 1) on, filled up
      with zeros; in packet 0 the blob's size, least significant byte first. */
  lemma PayloadBytes(comp: seq<byte>, k: nat, t: nat)
    requires k <= ChunkCount(|comp|) && t < 1168 && |comp| < 0x1_0000_0000
    ensures |Payload(comp, k)| == 1168
    ensures k > 0 ==>
      Payload(comp, k)[t] == if 1168 * (k - 1) + t < |comp| then comp[1168 * (k - 1) + t] else 0
    ensures k == 0 ==>
      Payload(comp, 0)[t] ==
        if t == 0 then |comp| % 256 else if t == 1 then |comp| / 256 % 256
        else if t == 2 then |comp| / 0x1_0000 % 256 else if t == 3 then |comp| / 0x100_0000 else 0
  {
    if k == 0 {
      SizeBytes(|comp|);
      assert Payload(comp, 0) == LE(|comp|, 8) + (Zeros(8) + Zeros(1152));
      assert t >= 8 ==> Payload(comp, 0)[t] == (Zeros(8) + Zeros(1152))[t - 8] == 0;
    }
  }

  lemma SizeBytes(n: uint32)
    ensures LE(n, 8) == LE(n, 4) + [0, 0, 0, 0]
    ensures LE(n, 4) == [n % 256, n / 256 % 256, n / 0x1_0000 % 256, n / 0x100_0000]
  {
    LE4(n);
    LEZeros(4);
    LEMore(n, 4, 4);
  }

  lemma {:induction false} LEZeros(n: nat)
    ensures forall i | 0 <= i < n :: LE(0, n)[i] == 0
  {
    if n > 0 {
      LEZeros(n - 1);
    }
  }

  /** Bytes beyond those that a number needs are zero. */
  lemma {:induction false} LEMore(v: nat, m: nat, n: nat)
    requires v < Pow256(m)
    ensures LE(v, m + n) == LE(v, m) + LE(0, n)
  {
    if m > 0 {
      LEMore(v / 256, m - 1, n);
      Regroup([v % 256], LE(v / 256, m - 1), LE(0, n));
    } else {
      EmptyPlus(LE(0, n));
    }
  }

  function Joined(comp: seq<byte>, k: nat): seq<byte>
    requires k <= ChunkCount(|comp|)
  {
    if k == 0 then [] else Joined(comp, k - 1) + Slice(comp, k)
  }

  /** The chunks tile the blob: none overlap, none is missing, none reaches past the end. */
  lemma {:induction false} ChunksTile(comp: seq<byte>, k: nat)
    requires k <= ChunkCount(|comp|)
    ensures Joined(comp, k) == comp[..Min(k * DATA_SIZE, |comp|)]
    ensures k == ChunkCount(|comp|) ==> Joined(comp, k) == comp
  {
    if k > 0 {
      ChunksTile(comp, k - 1);
    }
  }

  function FirstEntries(comp: seq<byte>, i: nat): map<nat, Piece>
    requires i <= ChunkCount(|comp|)
  {
    map k: nat | k <= i :: Entry(comp, k)
  }

  lemma BelowCount(i: nat, size: nat)
    ensures i * DATA_SIZE < size <==> i < ChunkCount(size)
  {
  }

  lemma NextEntry(comp: seq<byte>, i: nat)
    requires i < ChunkCount(|comp|)
    ensures var offset := i * DATA_SIZE;
      offset < |comp| && FirstEntries(comp, i + 1) ==
        FirstEntries(comp, i)[i + 1 := comp[offset..offset + Min(DATA_SIZE, |comp| - offset)]]
  {
    BelowCount(i, |comp|);
    assert Slice(comp, i + 1) == comp[i * DATA_SIZE..i * DATA_SIZE + Min(DATA_SIZE, |comp| - i * DATA_SIZE)];
  }

  lemma FirstEntry(comp: seq<byte>)
    ensures FirstEntries(comp, 0) == map[0 := LE(|comp|, 8) + Zeros(8)]
  {
  }

  lemma AllEntries(comp: seq<byte>)
    ensures FirstEntries(comp, ChunkCount(|comp|)) == Entries(comp)
  {
  }

  /** One turn of the chunking loop. */
  method CutOne(comp: seq<byte>, i: nat, dataMap: map<nat, Piece>) returns (more: map<nat, Piece>)
    requires i < ChunkCount(|comp|) && dataMap == FirstEntries(comp, i)
    ensures more == FirstEntries(comp, i + 1)
  {
    NextEntry(comp, i);
    var offset := i * DATA_SIZE;
    more := dataMap[i + 1 := comp[offset..offset + Min(DATA_SIZE, |comp| - offset)]];
  }

  /** The client's chunking loop. */
  method Cut(comp: seq<byte>) returns (dataMap: map<nat, Piece>)
    requires |comp| < 0x1_0000_0000
    ensures dataMap == Entries(comp)
  {
    FirstEntry(comp);
    dataMap := map[0 := LE(|comp|, 8) + Zeros(8)];
    var i := 0;
    ghost var n := ChunkCount(|comp|);
    BelowCount(i, |comp|);
    while i * DATA_SIZE < |comp|
      invariant 0 <= i <= n && (i * DATA_SIZE < |comp| <==> i < n)
      invariant dataMap == FirstEntries(comp, i)
      decreases n - i
    {
      dataMap := CutOne(comp, i, dataMap);
      i := i + 1;
      BelowCount(i, |comp|);
    }
    AllEntries(comp);
  }

  /** The rounded-up size of the server's reassembly buffer. */
  function BufferSize(compSize: uint32): nat
    requires compSize > 0
  {
    (1 + (compSize - 1) / DATA_SIZE) * DATA_SIZE
  }

  lemma BufferHoldsChunks(compSize: uint32, k: nat)
    requires 0 < compSize && k <= ChunkCount(compSize)
    ensures k * DATA_SIZE <= BufferSize(compSize) == ChunkCount(compSize) * DATA_SIZE
  {
    assert ChunkCount(compSize) == 1 + (compSize - 1) / DATA_SIZE;
  }

  /** Every fragment with a key in keys lies in buf at its place. */
  ghost predicate Placed(buf: seq<byte>, frags: map<nat, Data>, keys: set<nat>) {
    forall k <- keys :: 0 < k ==>
      k in frags && k * DATA_SIZE <= |buf| && buf[(k - 1) * DATA_SIZE..k * DATA_SIZE] == frags[k]
  }

  lemma ChunkOf(i: nat, size: nat)
    requires i < size
    ensures var k := i / DATA_SIZE + 1;
      k <= ChunkCount(size) && (k - 1) * DATA_SIZE <= i < k * DATA_SIZE && i % DATA_SIZE == i - (k - 1) * DATA_SIZE
  {
  }

  lemma PlacedAt(buf: seq<byte>, comp: seq<byte>, k: nat, i: nat)
    requires 1 <= k <= ChunkCount(|comp|) && k * DATA_SIZE <= |buf|
    requires buf[(k - 1) * DATA_SIZE..k * DATA_SIZE] == Payload(comp, k)
    requires (k - 1) * DATA_SIZE <= i < k * DATA_SIZE && i < |comp|
    ensures buf[i] == comp[i]
  {
    var part, r := buf[(k - 1) * DATA_SIZE..k * DATA_SIZE], i - (k - 1) * DATA_SIZE;
    assert part[r] == buf[i];
    assert part[r] == Slice(comp, k)[r];
  }

  /** Once every chunk is in the buffer, its first |comp| bytes are the blob. */
  lemma PlacedIsBlob(buf: seq<byte>, comp: seq<byte>, frags: map<nat, Data>)
    requires Placed(buf, frags, frags.Keys)
    requires forall k: nat | 0 < k <= ChunkCount(|comp|) :: k in frags && frags[k] == Payload(comp, k)
    ensures |comp| <= |buf| && buf[..|comp|] == comp
  {
    if comp != [] {
      ChunkOf(|comp| - 1, |comp|);
      assert (|comp| - 1) / DATA_SIZE + 1 in frags.Keys;
    }
    forall i | 0 <= i < |comp| ensures buf[i] == comp[i] {
      var k := i / DATA_SIZE + 1;
      ChunkOf(i, |comp|);
      assert k in frags.Keys;
      PlacedAt(buf, comp, k, i);
    }
  }

  /** save_to_file's reassembly: each fragment is copied to its place. The copies need every
      key to be a chunk number of compSize, and then none of them leaves the buffer. */
  method Assemble(compSize: uint32, data: map<nat, Data>) returns (buf: array<byte>)
    requires compSize > 0
    requires forall k <- data :: k <= ChunkCount(compSize)
    ensures fresh(buf) && buf.Length == BufferSize(compSize)
    ensures Placed(buf[..], data, data.Keys)
  {
    buf := new byte[BufferSize(compSize)];
    var rest := data.Keys;
    while rest != {}
      invariant rest <= data.Keys
      invariant Placed(buf[..], data, data.Keys - rest)
      decreases rest
    {
      var key :| key in rest;
      if key != 0 {
        CopyChunk(buf, key, data, data.Keys - rest);
      }
      rest := rest - {key};
    }
    assert data.Keys - rest == data.Keys;
  }

  /** One of the copies: the chunk arrives, and the chunks already in place stay. */
  method CopyChunk(buf: array<byte>, key: nat, data: map<nat, Data>, ghost done: set<nat>)
    requires key in data && 0 < key && key * DATA_SIZE <= buf.Length
    requires key !in done && Placed(buf[..], data, done)
    modifies buf
    ensures Placed(buf[..], data, done + {key})
  {
    ghost var before := buf[..];
    CopyInto(buf, (key - 1) * DATA_SIZE, data[key]);
    forall k <- done + {key} | 0 < k
      ensures k in data && k * DATA_SIZE <= buf.Length && buf[(k - 1) * DATA_SIZE..k * DATA_SIZE] == data[k]
    {
      if k == key {
        assert buf[..key * DATA_SIZE][(key - 1) * DATA_SIZE..] == data[key];
      } else {
        assert before[(k - 1) * DATA_SIZE..k * DATA_SIZE] == data[k];
      }
    }
  }
}
