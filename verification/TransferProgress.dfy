/** Progress of the transfer: two rounds without loss end it, and it can always still be ended. */
module TransferProgress {
  import opened Bytes
  import opened Chunks
  import opened Transfer
  import opened TransferSafety

  // ---------- Along a run ----------

  lemma {:induction false} BitsGrow(comp: seq<byte>, run: Run, i: nat, j: nat)
    requires Carried(comp) && IsRun(comp, run) && i <= j < |run.states|
    ensures Below(run.states[i].server.bits, run.states[j].server.bits)
    decreases j - i
  {
    if i < j {
      BitsGrowOnce(comp, run, i);
      BitsGrow(comp, run, i + 1, j);
    }
  }

  lemma BitsGrowOnce(comp: seq<byte>, run: Run, i: nat)
    requires Carried(comp) && IsRun(comp, run) && i < |run.steps|
    ensures Below(run.states[i].server.bits, run.states[i + 1].server.bits)
  {
    RunInv(comp, run, i);
    assert StepAt(run, i);
    StepGrows(comp, run.states[i], run.steps[i]);
  }

  lemma {:induction false} ExitIsFinal(comp: seq<byte>, run: Run, i: nat, j: nat)
    requires IsRun(comp, run) && i <= j < |run.states|
    requires run.states[i].client.phase.Exited?
    ensures run.states[j].client == run.states[i].client
    decreases j - i
  {
    if i < j {
      assert StepAt(run, i);
      ExitIsFinal(comp, run, i + 1, j);
    }
  }

  /** Between the key the client is at and a later round, every key gets its turn, and the map and
      the bit set it is judged by are those of the start. */
  lemma {:induction false} TurnComes(comp: seq<byte>, run: Run, i: nat, j: nat, k: Key) returns (t: nat)
    requires IsRun(comp, run) && i <= j < |run.states|
    requires run.states[i].client.phase.Sending? && run.states[i].client.phase.next <= k
    requires run.states[i].client.rounds < run.states[j].client.rounds
    ensures i <= t < j && run.steps[t] == ClientSend
    ensures run.states[t].client == run.states[i].client.(phase := Sending(k))
    decreases j - i
  {
    assert StepAt(run, i);
    if run.steps[i] == ClientSend && run.states[i].client.phase.next == k {
      t := i;
    } else {
      t := TurnComes(comp, run, i + 1, j, k);
    }
  }

  // ---------- Loss-free rounds ----------

  predicate Takes(step: Step, p: Packet) {
    match step
    case ServerRecv(q, _) => q == p
    case ServerFin(q) => q == p
    case _ => false
  }

  /** The packet that step t sends, if it sends one, reaches the server before step j. */
  ghost predicate PacketArrives(run: Run, t: nat, j: nat)
    requires t < j < |run.states| == |run.steps| + 1
  {
    var c := run.states[t].client;
    run.steps[t] == ClientSend && c.phase.Sending? && Sends(c, c.phase.next) ==>
      exists u | t < u < j :: Takes(run.steps[u], PacketOf(c, c.phase.next))
  }

  /** The reply that step t emits, if it emits one, reaches the client before step j. */
  ghost predicate ReplyArrives(run: Run, t: nat, j: nat)
    requires t < j < |run.states| == |run.steps| + 1
  {
    Enabled(run.states[t], run.steps[t]) && Emitted(run.states[t], run.steps[t]).Some? ==>
      exists u | t < u < j :: run.steps[u] == ClientRecv(Emitted(run.states[t], run.steps[t]).value)
  }

  /** States i to j are one round of the client, which either ends the client or loses nothing:
      each packet it sends arrives within the round, and so does each reply. Anything else may
      happen in between: old messages arriving again, in any order. */
  ghost predicate LossFreeRound(run: Run, i: nat, j: nat)
    requires |run.states| == |run.steps| + 1
  {
    && i <= j < |run.states|
    && (run.states[i].client.phase == Sending(0) || run.states[i].client.phase.Exited?)
    && (run.states[j].client.phase.Exited? ||
        (&& run.states[j].client.phase == Sending(0)
         && run.states[j].client.rounds == run.states[i].client.rounds + 1
         && (forall t | i <= t < j :: PacketArrives(run, t, j))
         && (forall t | i <= t < j :: ReplyArrives(run, t, j))))
  }

  /** A missing chunk is on the server by the end of a loss-free round. */
  lemma KeyDelivered(comp: seq<byte>, run: Run, i: nat, j: nat, k: Key)
    requires Carried(comp) && IsRun(comp, run) && LossFreeRound(run, i, j)
    requires run.states[i].client.phase == Sending(0) && !run.states[j].client.phase.Exited?
    requires k in run.states[i].client.dataMap
    ensures exists u | i < u < j :: Takes(run.steps[u], PacketOf(run.states[i].client, k))
  {
    RunInv(comp, run, i);
    var t := TurnComes(comp, run, i, j, k);
    assert PacketArrives(run, t, j);
  }

  lemma RoundDelivers(comp: seq<byte>, run: Run, i: nat, j: nat, k: nat)
    requires Carried(comp) && IsRun(comp, run) && LossFreeRound(run, i, j)
    requires run.states[i].client.phase == Sending(0) && !run.states[j].client.phase.Exited?
    requires k <= ChunkCount(|comp|)
    ensures run.states[j].server.bits[k]
  {
    RunInv(comp, run, i);
    if run.states[i].server.bits[k] {
      BitsGrow(comp, run, i, j);
    } else {
      KeyDelivered(comp, run, i, j, k);
      var u :| i < u < j && Takes(run.steps[u], PacketOf(run.states[i].client, k));
      RunInv(comp, run, u);
      assert StepAt(run, u);
      TakenIsHeld(comp, run.states[u], run.steps[u], k);
      BitsGrow(comp, run, u + 1, j);
    }
  }

  lemma TakenIsHeld(comp: seq<byte>, s: State, step: Step, k: nat)
    requires Carried(comp) && Inv(comp, s) && Enabled(s, step) && k <= ChunkCount(|comp|)
    requires step.ServerRecv? ==> step.packet.dataSeq == k
    requires step.ServerRecv? || step.ServerFin?
    ensures Apply(s, step).server.bits[k]
  {
  }

  /** A server that holds everything answers any packet with FIN. */
  lemma AnswersFin(comp: seq<byte>, s: State, step: Step, p: Packet)
    requires Carried(comp) && Inv(comp, s) && Enabled(s, step) && Takes(step, p)
    requires HoldsAll(comp, s.server.bits)
    ensures Emitted(s, step) == Some(Fin(s.server))
  {
    if s.server.phase.Receiving? {
      CounterIsSet(comp, s.server);
    }
  }

  /** Once the server holds everything, a loss-free round ends the client. */
  lemma RoundEnds(comp: seq<byte>, run: Run, j: nat, l: nat)
    requires Carried(comp) && IsRun(comp, run) && LossFreeRound(run, j, l)
    requires run.states[j].client.phase == Sending(0) && HoldsAll(comp, run.states[j].server.bits)
    ensures run.states[l].client.phase.Exited?
  {
    if !run.states[l].client.phase.Exited? {
      RunInv(comp, run, j);
      var k :| k in run.states[j].client.dataMap;
      var p := PacketOf(run.states[j].client, k);
      KeyDelivered(comp, run, j, l, k);
      var u :| j < u < l && Takes(run.steps[u], p);
      BitsGrow(comp, run, j, u);
      FinArrives(comp, run, u, l, p);
    }
  }

  lemma FinArrives(comp: seq<byte>, run: Run, u: nat, l: nat, p: Packet)
    requires Carried(comp) && IsRun(comp, run) && u < l < |run.states|
    requires HoldsAll(comp, run.states[u].server.bits) && Takes(run.steps[u], p) && ReplyArrives(run, u, l)
    ensures run.states[l].client.phase.Exited?
  {
    RunInv(comp, run, u);
    assert StepAt(run, u);
    AnswersFin(comp, run.states[u], run.steps[u], p);
    var v :| u < v < l && run.steps[v] == ClientRecv(Fin(run.states[u].server));
    assert StepAt(run, v);
    ExitIsFinal(comp, run, v + 1, l);
  }

  /** Two consecutive loss-free rounds make the client exit, from any reachable state at the top of
      a round and under any interleaving. */
  lemma TwoLossFreeRounds(comp: seq<byte>, run: Run, i: nat, j: nat, l: nat)
    requires Carried(comp) && IsRun(comp, run)
    requires LossFreeRound(run, i, j) && LossFreeRound(run, j, l)
    ensures run.states[l].client.phase.Exited?
  {
    if run.states[i].client.phase.Exited? {
      ExitIsFinal(comp, run, i, l);
    } else if run.states[j].client.phase.Exited? {
      ExitIsFinal(comp, run, j, l);
    } else {
      forall k: nat | k <= ChunkCount(|comp|) ensures run.states[j].server.bits[k] {
        RoundDelivers(comp, run, i, j, k);
      }
      RoundEnds(comp, run, j, l);
    }
  }

  // ---------- It can always still be finished ----------

  function Last(run: Run): State
    requires run.states != []
  {
    run.states[|run.states| - 1]
  }

  /** more is run, gone on with: run is a prefix of it. */
  ghost predicate GoesOn(comp: seq<byte>, run: Run, more: Run) {
    IsRun(comp, run) && IsRun(comp, more) && run.states <= more.states && run.steps <= more.steps
  }

  lemma GoOn(comp: seq<byte>, run: Run, step: Step) returns (more: Run)
    requires IsRun(comp, run) && Enabled(Last(run), step)
    ensures GoesOn(comp, run, more) && Last(more) == Apply(Last(run), step)
  {
    more := Run(run.states + [Apply(Last(run), step)], run.steps + [step]);
    forall i | 0 <= i < |more.steps| ensures StepAt(more, i) {
      assert i < |run.steps| ==> StepAt(run, i);
    }
  }

  lemma GoesOnFurther(comp: seq<byte>, a: Run, b: Run, c: Run)
    requires GoesOn(comp, a, b) && GoesOn(comp, b, c)
    ensures GoesOn(comp, a, c)
  {
  }

  lemma LastInv(comp: seq<byte>, run: Run)
    requires Carried(comp) && IsRun(comp, run)
    ensures Inv(comp, Last(run))
  {
    RunInv(comp, run, |run.steps|);
  }

  /** The client can finish the sending half of its round. */
  lemma {:induction false} CanSend(comp: seq<byte>, run: Run) returns (more: Run)
    requires Carried(comp) && IsRun(comp, run) && Last(run).client.phase.Sending?
    ensures GoesOn(comp, run, more)
    ensures Last(more).client == Last(run).client.(phase := Reading) && Last(more).server == Last(run).server
    ensures Last(run).toServer <= Last(more).toServer
    ensures forall k: Key :: Last(run).client.phase.next <= k && Sends(Last(run).client, k) ==>
      PacketOf(Last(run).client, k) in Last(more).toServer
    decreases BITS - Last(run).client.phase.next
  {
    more := GoOn(comp, run, ClientSend);
    if Last(run).client.phase.next + 1 < BITS {
      var further := CanSend(comp, more);
      assert forall k: Key | Sends(Last(run).client, k) :: PacketOf(Last(more).client, k) == PacketOf(Last(run).client, k);
      GoesOnFurther(comp, run, more, further);
      more := further;
    }
  }

  predicate HoldsBelow(bits: Bits, k: nat) {
    k <= BITS && forall j: nat | j < k :: bits[j]
  }

  ghost predicate MissingInFlight(comp: seq<byte>, s: State)
    requires Carried(comp)
  {
    forall j: nat | j <= ChunkCount(|comp|) && !s.server.bits[j] :: Packet(j, Payload(comp, j)) in s.toServer
  }

  /** The server can take every packet it still lacks, if they are all in flight. */
  lemma {:induction false} CanDeliver(comp: seq<byte>, run: Run, k: nat) returns (more: Run)
    requires Carried(comp) && IsRun(comp, run) && k <= ChunkCount(|comp|) + 1
    requires HoldsBelow(Last(run).server.bits, k) && MissingInFlight(comp, Last(run))
    ensures GoesOn(comp, run, more)
    ensures Last(more).client == Last(run).client && Last(more).toServer == Last(run).toServer
    ensures HoldsAll(comp, Last(more).server.bits)
    decreases ChunkCount(|comp|) + 1 - k
  {
    if k == ChunkCount(|comp|) + 1 {
      more := run;
    } else if Last(run).server.bits[k] {
      more := CanDeliver(comp, run, k + 1);
    } else {
      var one := CanTake(comp, run, k);
      more := CanDeliver(comp, one, k + 1);
      GoesOnFurther(comp, run, one, more);
    }
  }

  lemma CanTake(comp: seq<byte>, run: Run, k: nat) returns (more: Run)
    requires Carried(comp) && IsRun(comp, run) && k <= ChunkCount(|comp|) && !Last(run).server.bits[k]
    requires HoldsBelow(Last(run).server.bits, k) && MissingInFlight(comp, Last(run))
    ensures GoesOn(comp, run, more)
    ensures Last(more).client == Last(run).client && Last(more).toServer == Last(run).toServer
    ensures HoldsBelow(Last(more).server.bits, k + 1) && MissingInFlight(comp, Last(more))
  {
    LastInv(comp, run);
    var step := ServerRecv(Packet(k, Payload(comp, k)), false);
    TakeOne(comp, Last(run), step, k);
    more := GoOn(comp, run, step);
  }

  lemma TakeOne(comp: seq<byte>, s: State, step: Step, k: nat)
    requires Carried(comp) && Inv(comp, s) && k <= ChunkCount(|comp|) && !s.server.bits[k]
    requires HoldsBelow(s.server.bits, k) && MissingInFlight(comp, s)
    requires step == ServerRecv(Packet(k, Payload(comp, k)), false)
    ensures Enabled(s, step)
    ensures var t := Apply(s, step);
      t.client == s.client && t.toServer == s.toServer && t.server.bits == s.server.bits[k := true]
  {
    CounterIsSet(comp, s.server);
  }

  /** The blob itself, padded to the buffer's size, is one of the buffers reassembly may leave. */
  lemma BlobIsPlaced(comp: seq<byte>, s: Server)
    requires Carried(comp) && ServerInv(comp, s) && s.phase.Receiving? && s.bits[0]
    ensures |comp| <= BufferSize(s.compSize)
    ensures MayAssemble(s, comp + Zeros(BufferSize(s.compSize) - |comp|))
  {
    BufferHoldsChunks(|comp|, ChunkCount(|comp|));
    var buf := comp + Zeros(BufferSize(s.compSize) - |comp|);
    forall k <- s.dataMap.Keys
      ensures k * DATA_SIZE <= |buf| && buf[(k - 1) * DATA_SIZE..k * DATA_SIZE] == s.dataMap[k]
    {
      BufferHoldsChunks(|comp|, k);
      PaddedIsPart(comp, k, buf);
    }
  }

  lemma PaddedIsPart(comp: seq<byte>, k: nat, buf: seq<byte>)
    requires 0 < k <= ChunkCount(|comp|) && |comp| <= |buf| && k * DATA_SIZE <= |buf|
    requires buf == comp + Zeros(|buf| - |comp|)
    ensures buf[(k - 1) * DATA_SIZE..k * DATA_SIZE] == Payload(comp, k)
  {
  }

  /** A server that holds everything can save. */
  lemma CanSave(comp: seq<byte>, run: Run) returns (more: Run)
    requires Carried(comp) && IsRun(comp, run) && HoldsAll(comp, Last(run).server.bits)
    ensures GoesOn(comp, run, more)
    ensures Last(more).client == Last(run).client && Last(more).toServer == Last(run).toServer
    ensures Last(more).server.phase == Finished(comp)
  {
    more := run;
    LastInv(comp, run);
    if Last(run).server.phase.Receiving? {
      more := GoOn(comp, run, SaveStep(comp, Last(run).server));
      LastInv(comp, more);
    }
  }

  lemma SaveIsEnabled(comp: seq<byte>, s: Server)
    requires Carried(comp) && ServerInv(comp, s) && HoldsAll(comp, s.bits) && s.phase.Receiving?
    ensures !Looping(s) && s.compSize > 0 && |comp| <= BufferSize(s.compSize)
    ensures MayAssemble(s, comp + Zeros(BufferSize(s.compSize) - |comp|))
  {
    CounterIsSet(comp, s);
    BlobIsPlaced(comp, s);
  }

  ghost function SaveStep(comp: seq<byte>, s: Server): (step: Step)
    requires Carried(comp) && ServerInv(comp, s) && HoldsAll(comp, s.bits) && s.phase.Receiving?
    ensures step.ServerSave? && !Looping(s) && MayAssemble(s, step.buf)
  {
    SaveIsEnabled(comp, s);
    ServerSave(comp + Zeros(BufferSize(s.compSize) - |comp|))
  }

  lemma CanFinishRound(comp: seq<byte>, run: Run) returns (more: Run)
    requires Carried(comp) && IsRun(comp, run) && Last(run).client.phase == Sending(0)
    ensures GoesOn(comp, run, more)
    ensures Last(more).client.phase.Exited? && Last(more).server.phase == Finished(comp)
  {
    var sent := CanSend(comp, run);
    RoundInFlight(comp, run, sent);
    var delivered := CanDeliver(comp, sent, 0);
    var saved := CanSave(comp, delivered);
    GoesOnFurther(comp, sent, delivered, saved);
    GoesOnFurther(comp, run, sent, saved);
    LastInv(comp, run);
    var k :| k in Last(run).client.dataMap;
    var replied := GoOn(comp, saved, ServerFin(PacketOf(Last(run).client, k)));
    GoesOnFurther(comp, run, saved, replied);
    more := GoOn(comp, replied, ClientRecv(Fin(Last(saved).server)));
    GoesOnFurther(comp, run, replied, more);
  }

  lemma RoundInFlight(comp: seq<byte>, run: Run, sent: Run)
    requires Carried(comp) && GoesOn(comp, run, sent) && Last(run).client.phase == Sending(0)
    requires Last(sent).server == Last(run).server
    requires forall k: Key :: Sends(Last(run).client, k) ==> PacketOf(Last(run).client, k) in Last(sent).toServer
    ensures MissingInFlight(comp, Last(sent))
  {
    LastInv(comp, run);
    var c := Last(run).client;
    forall j: nat | j <= ChunkCount(|comp|) && !Last(run).server.bits[j]
      ensures Packet(j, Payload(comp, j)) in Last(sent).toServer
    {
      assert Sends(c, j) && PacketOf(c, j) == Packet(j, Payload(comp, j));
    }
  }

  lemma CanFinishReading(comp: seq<byte>, run: Run) returns (more: Run)
    requires Carried(comp) && IsRun(comp, run) && Last(run).client.phase.Reading?
    ensures GoesOn(comp, run, more)
    ensures Last(more).client.phase.Exited? && Last(more).server.phase == Finished(comp)
  {
    var top := GoOn(comp, run, ClientEndRound);
    if Last(top).client.phase.Exited? {
      AckSafety(comp, top, |top.steps|);
      more := CanSave(comp, top);
    } else {
      more := CanFinishRound(comp, top);
    }
    GoesOnFurther(comp, run, top, more);
  }

  /** Every run, whatever it lost so far, can go on so that the server saves the right blob and the
      client exits. */
  lemma CanAlwaysFinish(comp: seq<byte>, run: Run) returns (more: Run)
    requires Carried(comp) && IsRun(comp, run)
    ensures GoesOn(comp, run, more)
    ensures Last(more).client.phase.Exited? && Last(more).server.phase == Finished(comp)
  {
    match Last(run).client.phase
    case Sending(_) =>
      var sent := CanSend(comp, run);
      more := CanFinishReading(comp, sent);
      GoesOnFurther(comp, run, sent, more);
    case Reading =>
      more := CanFinishReading(comp, run);
    case Exited(_) =>
      AckSafety(comp, run, |run.steps|);
      more := CanSave(comp, run);
  }
}
