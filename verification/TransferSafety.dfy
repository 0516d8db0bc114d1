/** What every reachable state of the transfer satisfies, and the end-to-end theorem. */
module TransferSafety {
  import opened Bytes
  import opened Chunks
  import opened Transfer
  import Archive

  /** The blobs that the bit set of 9344 bits has room for: up to 9343 chunks of 1168 bytes. */
  lemma CarriedIs(comp: seq<byte>)
    ensures Carried(comp) <==> 0 < |comp| <= 1168 * 9343
  {
  }

  /** Every bit for packet 0 and chunks 1..n is set. */
  predicate HoldsAll(comp: seq<byte>, bits: Bits)
    requires Carried(comp)
  {
    forall k: nat | k <= ChunkCount(|comp|) :: bits[k]
  }

  predicate Below(a: Bits, b: Bits) {
    forall k: Key :: a[k] ==> b[k]
  }

  ghost predicate ServerInv(comp: seq<byte>, s: Server)
    requires Carried(comp)
  {
    && (forall k: Key :: s.bits[k] ==> k <= ChunkCount(|comp|))
    && s.compSize == (if s.bits[0] then |comp| else UINT32_MAX)
    && (s.phase.Receiving? ==>
      && (forall k: Key | 0 < k :: s.bits[k] <==> k in s.dataMap)
      && (forall k <- s.dataMap.Keys :: 0 < k <= ChunkCount(|comp|) && s.dataMap[k] == Payload(comp, k))
      && s.recvSize == DATA_SIZE * |s.dataMap|)
    && (s.phase.Finished? ==> HoldsAll(comp, s.bits) && s.phase.blob == comp)
  }

  /** Nothing leaves the client's map before the server holds it. */
  ghost predicate ClientInv(comp: seq<byte>, c: Client, bits: Bits)
    requires Carried(comp)
  {
    && Below(c.donebit, bits)
    && (forall k: nat | k <= ChunkCount(|comp|) :: k in c.dataMap || bits[k])
    && (forall k <- c.dataMap.Keys :: k <= ChunkCount(|comp|) && c.dataMap[k] == Entry(comp, k))
    && (c.phase.Sending? ==> forall k: Key :: k in c.dataMap ==> !c.donebit[k])
    && (c.dataMap == map[] <==> c.phase == Exited(false))
  }

  ghost predicate NetworkInv(comp: seq<byte>, s: State)
    requires Carried(comp)
  {
    && (forall p <- s.toServer :: p.dataSeq <= ChunkCount(|comp|) && p.data == Payload(comp, p.dataSeq))
    && (forall r <- s.toClient :: Below(r.bits, s.server.bits))
    && (forall r <- s.toClient :: r.dataSeq == UINT32_MAX ==> s.server.phase.Finished?)
  }

  ghost predicate Inv(comp: seq<byte>, s: State)
    requires Carried(comp)
  {
    && ServerInv(comp, s.server)
    && ClientInv(comp, s.client, s.server.bits)
    && NetworkInv(comp, s)
    && (s.client.phase == Exited(true) ==> s.server.phase.Finished?)
  }

  // ---------- Counter against set ----------

  predicate IsChunk(k: nat, n: nat) { 0 < k <= n }

  /** The keys of n chunks. */
  function Upto(n: nat): (s: set<nat>)
    ensures forall k: nat :: k in s <==> 0 < k <= n
  {
    set k: nat | k <= n && IsChunk(k, n)
  }

  lemma {:induction false} UptoSize(n: nat)
    ensures |Upto(n)| == n
  {
    if n > 0 {
      UptoSize(n - 1);
      assert Upto(n) == Upto(n - 1) + {n};
    }
  }

  lemma SubsetSize(a: set<nat>, b: set<nat>)
    requires a <= b
    ensures |a| <= |b|
    ensures |a| == |b| ==> a == b
  {
    assert b == a + (b - a);
    assert |b| == |a| + |b - a|;
  }

  lemma BytesOfChunks(m: nat, size: nat)
    requires 0 < size && m <= ChunkCount(size)
    ensures DATA_SIZE * m < size + DATA_SIZE
    ensures size <= DATA_SIZE * m <==> m == ChunkCount(size)
  {
  }

  lemma KeysAndBits(comp: seq<byte>, s: Server)
    requires Carried(comp) && ServerInv(comp, s) && s.phase.Receiving?
    ensures var n := ChunkCount(|comp|);
      s.dataMap.Keys <= Upto(n) && (Upto(n) <= s.dataMap.Keys <==> forall k: nat | 0 < k <= n :: s.bits[k])
  {
  }

  lemma CountKeys(keys: set<nat>, n: nat)
    requires keys <= Upto(n)
    ensures |keys| <= n && (|keys| == n <==> Upto(n) <= keys)
  {
    UptoSize(n);
    SubsetSize(keys, Upto(n));
    if Upto(n) <= keys {
      SubsetSize(Upto(n), keys);
    }
  }

  /** The byte counter never wraps, and the loop's counter test fails exactly when packet 0 and
      every chunk have arrived. */
  lemma CounterIsSet(comp: seq<byte>, s: Server)
    requires Carried(comp) && ServerInv(comp, s) && s.phase.Receiving?
    ensures s.recvSize + DATA_SIZE < UINT32_MAX
    ensures !Looping(s) <==> HoldsAll(comp, s.bits)
    ensures s.bits[0] ==> (s.recvSize >= s.compSize <==> s.dataMap.Keys == Upto(ChunkCount(|comp|)))
  {
    KeysAndBits(comp, s);
    CountKeys(s.dataMap.Keys, ChunkCount(|comp|));
    assert |s.dataMap| == |s.dataMap.Keys|;
    BytesOfChunks(|s.dataMap|, |comp|);
    BytesOfChunks(ChunkCount(|comp|), |comp|);
  }

  /** Every copy that reassembly makes lands inside the rounded-up buffer. */
  lemma WritesInside(comp: seq<byte>, s: Server, k: nat)
    requires Carried(comp) && ServerInv(comp, s) && s.phase.Receiving? && s.bits[0] && k in s.dataMap
    ensures 0 < k && k * DATA_SIZE <= BufferSize(s.compSize) == ChunkCount(|comp|) * DATA_SIZE
  {
    assert s.compSize == |comp|;
    BufferHoldsChunks(|comp|, k);
  }

  // ---------- The invariant is kept ----------

  lemma InitInv(comp: seq<byte>)
    requires Carried(comp)
    ensures Inv(comp, Init(comp))
  {
    assert 0 in Entries(comp);
  }

  lemma AcceptSize(comp: seq<byte>, s: Server, p: Packet)
    requires Carried(comp) && ServerInv(comp, s) && s.phase.Receiving?
    requires p.dataSeq == 0 && p.data == Payload(comp, 0)
    ensures ServerInv(comp, Accept(s, p))
  {
    SizeFieldOfPayload(comp);
    assert Accept(s, p) == s.(bits := s.bits[0 := true], compSize := |comp|);
  }

  lemma AcceptRepeat(comp: seq<byte>, s: Server, p: Packet)
    requires Carried(comp) && ServerInv(comp, s) && s.phase.Receiving?
    requires 0 < p.dataSeq && p.dataSeq in s.dataMap
    ensures Accept(s, p) == s
  {
    assert s.bits[p.dataSeq := true] == s.bits;
  }

  lemma AcceptNew(comp: seq<byte>, s: Server, p: Packet)
    requires Carried(comp) && ServerInv(comp, s) && s.phase.Receiving?
    requires 0 < p.dataSeq <= ChunkCount(|comp|) && p.data == Payload(comp, p.dataSeq) && p.dataSeq !in s.dataMap
    ensures ServerInv(comp, Accept(s, p))
  {
    CounterIsSet(comp, s);
    var dataMap := s.dataMap[p.dataSeq := p.data];
    assert |dataMap| == |s.dataMap| + 1;
  }

  lemma AcceptInv(comp: seq<byte>, s: Server, p: Packet)
    requires Carried(comp) && ServerInv(comp, s) && s.phase.Receiving?
    requires p.dataSeq <= ChunkCount(|comp|) && p.data == Payload(comp, p.dataSeq)
    ensures ServerInv(comp, Accept(s, p))
    ensures Below(s.bits, Accept(s, p).bits)
  {
    if p.dataSeq == 0 {
      AcceptSize(comp, s, p);
    } else if p.dataSeq in s.dataMap {
      AcceptRepeat(comp, s, p);
    } else {
      AcceptNew(comp, s, p);
    }
  }

  lemma SaveInv(comp: seq<byte>, s: Server, buf: seq<byte>)
    requires Carried(comp) && ServerInv(comp, s) && s.phase.Receiving? && !Looping(s) && MayAssemble(s, buf)
    ensures s.compSize <= |buf| && ServerInv(comp, Save(s, buf))
  {
    CounterIsSet(comp, s);
    PlacedIsBlob(buf, comp, s.dataMap);
  }

  lemma ServerRecvInv(comp: seq<byte>, s: State, p: Packet, ack: bool)
    requires Carried(comp) && Inv(comp, s) && Enabled(s, ServerRecv(p, ack))
    ensures Inv(comp, Apply(s, ServerRecv(p, ack)))
  {
    AcceptInv(comp, s.server, p);
  }

  lemma ServerSaveInv(comp: seq<byte>, s: State, buf: seq<byte>)
    requires Carried(comp) && Inv(comp, s) && Enabled(s, ServerSave(buf))
    ensures Inv(comp, Apply(s, ServerSave(buf)))
  {
    SaveInv(comp, s.server, buf);
  }

  lemma ServerStepInv(comp: seq<byte>, s: State, step: Step)
    requires Carried(comp) && Inv(comp, s) && Enabled(s, step)
    requires step.ServerRecv? || step.ServerSave? || step.ServerFin?
    ensures Inv(comp, Apply(s, step))
  {
    match step
    case ServerRecv(p, ack) => ServerRecvInv(comp, s, p, ack);
    case ServerSave(buf) => ServerSaveInv(comp, s, buf);
    case ServerFin(p) =>
  }

  lemma HeardInv(comp: seq<byte>, c: Client, r: Reply, bits: Bits)
    requires Carried(comp) && ClientInv(comp, c, bits) && c.phase.Reading? && Below(r.bits, bits)
    ensures ClientInv(comp, Heard(c, r), bits)
  {
  }

  lemma NextRoundInv(comp: seq<byte>, c: Client, bits: Bits)
    requires Carried(comp) && ClientInv(comp, c, bits) && c.phase.Reading?
    ensures ClientInv(comp, NextRound(c), bits)
  {
  }

  lemma ClientStepInv(comp: seq<byte>, s: State, step: Step)
    requires Carried(comp) && Inv(comp, s) && Enabled(s, step)
    requires step.ClientSend? || step.ClientRecv? || step.ClientEndRound?
    ensures Inv(comp, Apply(s, step))
  {
    match step
    case ClientSend =>
    case ClientRecv(r) => HeardInv(comp, s.client, r, s.server.bits);
    case ClientEndRound => NextRoundInv(comp, s.client, s.server.bits);
  }

  lemma StepInv(comp: seq<byte>, s: State, step: Step)
    requires Carried(comp) && Inv(comp, s) && Enabled(s, step)
    ensures Inv(comp, Apply(s, step))
  {
    if step.ClientSend? || step.ClientRecv? || step.ClientEndRound? {
      ClientStepInv(comp, s, step);
    } else {
      ServerStepInv(comp, s, step);
    }
  }

  lemma {:induction false} RunInv(comp: seq<byte>, run: Run, i: nat)
    requires Carried(comp) && IsRun(comp, run) && i < |run.states|
    ensures Inv(comp, run.states[i])
  {
    if i == 0 {
      InitInv(comp);
    } else {
      RunInv(comp, run, i - 1);
      assert StepAt(run, i - 1);
      StepInv(comp, run.states[i - 1], run.steps[i - 1]);
    }
  }

  // ---------- Main results ----------

  /** End to end: whatever the network loses, repeats or reorders, if the server ever leaves its
      receive loop then the splitting loop, run on the decompressed blob, stays in bounds and
      yields exactly the client's files, in order. */
  lemma FilesArrive(files: seq<Archive.File>, compress: seq<byte> -> seq<byte>, decompress: seq<byte> -> seq<byte>,
                    run: Run, i: nat)
    requires Archive.Sized(files)
    requires forall x :: decompress(compress(x)) == x
    requires Carried(compress(Archive.Blob(files))) && IsRun(compress(Archive.Blob(files)), run)
    requires i < |run.states| && run.states[i].server.phase.Finished?
    ensures Archive.Split(decompress(run.states[i].server.phase.blob)) == Some(files)
  {
    RunInv(compress(Archive.Blob(files)), run, i);
    Archive.SplitIffBlob(Archive.Blob(files), files);
  }

  /** Acknowledgement safety: a key is missing from the client's map, or marked done, only if the
      server has it; a client that exited leaves a server that has everything, and one that exited
      on FIN leaves a server that has saved; no FIN is in flight before the save. */
  lemma AckSafety(comp: seq<byte>, run: Run, i: nat)
    requires Carried(comp) && IsRun(comp, run) && i < |run.states|
    ensures var s := run.states[i];
      && (forall k: nat | k <= ChunkCount(|comp|) && !s.server.bits[k] :: k in s.client.dataMap && !s.client.donebit[k])
      && (s.client.phase.Exited? ==> HoldsAll(comp, s.server.bits) && (s.server.phase.Receiving? ==> !Looping(s.server)))
      && (s.client.phase == Exited(true) ==> s.server.phase == Finished(comp))
      && (forall r <- s.toClient :: r.dataSeq == UINT32_MAX ==> s.server.phase == Finished(comp))
  {
    RunInv(comp, run, i);
    var s := run.states[i];
    if s.server.phase.Receiving? {
      CounterIsSet(comp, s.server);
    }
  }

  /** The newest acknowledgement alone decides what the next round sends: exactly the keys of the map
      whose bit it leaves open, with their data; the client exits just when there are none. */
  lemma NewestAckDecides(c: Client, r: Reply)
    requires c.phase.Reading? && r.dataSeq != UINT32_MAX
    ensures var d := NextRound(Heard(c, r));
      && (forall k: nat :: k in d.dataMap <==> k in c.dataMap && !(k < BITS && r.bits[k]))
      && (forall k <- d.dataMap.Keys :: d.dataMap[k] == c.dataMap[k])
      && (forall k: Key :: Sends(d, k) <==> Sends(c.(donebit := r.bits), k))
      && (d.phase == Exited(false) <==> forall k <- c.dataMap.Keys :: k < BITS && r.bits[k])
  {
    var left := Erased(Heard(c, r));
    if left != map[] {
      var k :| k in left;
      assert k in c.dataMap.Keys;
    }
  }

  ghost function MissingAtServer(comp: seq<byte>, s: State): set<nat>
    requires Carried(comp)
  {
    set k: nat | k <= ChunkCount(|comp|) && !s.server.bits[k]
  }

  lemma StepGrows(comp: seq<byte>, s: State, step: Step)
    requires Carried(comp) && Inv(comp, s) && Enabled(s, step)
    ensures var t := Apply(s, step);
      && Below(s.server.bits, t.server.bits)
      && t.client.dataMap.Keys <= s.client.dataMap.Keys
      && (s.server.phase.Finished? ==> t.server == s.server)
      && s.toServer <= t.toServer && s.toClient <= t.toClient
  {
    if step.ServerRecv? {
      AcceptInv(comp, s.server, step.packet);
    } else {
      assert Apply(s, step).server.bits == s.server.bits;
    }
  }

  /** No step of either side ever loses ground, and the server's missing keys are always among
      those the client still has to deliver. */
  lemma NoGroundLost(comp: seq<byte>, run: Run, i: nat)
    requires Carried(comp) && IsRun(comp, run) && i < |run.steps|
    ensures var (s, t) := (run.states[i], run.states[i + 1]);
      && MissingAtServer(comp, t) <= MissingAtServer(comp, s) <= s.client.dataMap.Keys
      && t.client.dataMap.Keys <= s.client.dataMap.Keys
      && (s.server.phase.Finished? ==> t.server == s.server)
      && s.toServer <= t.toServer && s.toClient <= t.toClient
  {
    RunInv(comp, run, i);
    assert StepAt(run, i);
    StepGrows(comp, run.states[i], run.steps[i]);
  }

  /** In every reachable state each chunk held has the right bytes, the counter is exactly DATA_SIZE
      per chunk and does not wrap, and the loop is left exactly when nothing is missing. */
  lemma CounterNeverWraps(comp: seq<byte>, run: Run, i: nat)
    requires Carried(comp) && IsRun(comp, run) && i < |run.states|
    requires run.states[i].server.phase.Receiving?
    ensures var s := run.states[i].server;
      && s.recvSize == DATA_SIZE * |s.dataMap|
      && s.recvSize + DATA_SIZE < UINT32_MAX
      && (!Looping(s) <==> HoldsAll(comp, s.bits))
      && (forall k <- s.dataMap.Keys :: 0 < k <= ChunkCount(|comp|) && s.dataMap[k] == Payload(comp, k))
  {
    RunInv(comp, run, i);
    CounterIsSet(comp, run.states[i].server);
  }
}
