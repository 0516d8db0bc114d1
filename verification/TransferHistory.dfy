/** What the messages of a run say about its history: acknowledgements report exactly the keys that
    have arrived, and each step puts on the network exactly what it should. */
module TransferHistory {
  import opened Bytes
  import opened Chunks
  import opened Transfer
  import opened TransferSafety

  /** One of the first n steps took a packet with key k out of the network, in the receive loop. */
  ghost predicate Took(run: Run, n: nat, k: nat)
    requires n <= |run.steps|
  {
    exists j | 0 <= j < n :: run.steps[j].ServerRecv? && run.steps[j].packet.dataSeq == k
  }

  lemma TookNext(run: Run, n: nat, k: nat)
    requires n < |run.steps|
    ensures Took(run, n + 1, k) <==>
      Took(run, n, k) || (run.steps[n].ServerRecv? && run.steps[n].packet.dataSeq == k)
  {
  }

  lemma StepBits(s: State, step: Step, k: Key)
    requires Enabled(s, step)
    ensures Apply(s, step).server.bits[k] <==> s.server.bits[k] || (step.ServerRecv? && step.packet.dataSeq == k)
  {
  }

  lemma {:induction false} BitsAreHistory(comp: seq<byte>, run: Run, i: nat, k: Key)
    requires IsRun(comp, run) && i < |run.states|
    ensures run.states[i].server.bits[k] <==> Took(run, i, k)
  {
    if i > 0 {
      BitsAreHistory(comp, run, i - 1, k);
      assert StepAt(run, i - 1);
      StepBits(run.states[i - 1], run.steps[i - 1], k);
      TookNext(run, i - 1, k);
    }
  }

  /** The reply that step i sends, if it sends one. */
  ghost function ReplyOf(comp: seq<byte>, run: Run, i: nat): Option<Reply>
    requires IsRun(comp, run) && i < |run.steps|
  {
    assert StepAt(run, i);
    Emitted(run.states[i], run.steps[i])
  }

  /** Step i sends r and nothing else to the client. */
  ghost predicate SendsReply(comp: seq<byte>, run: Run, i: nat, r: Reply)
    requires IsRun(comp, run) && i < |run.steps|
  {
    ReplyOf(comp, run, i) == Some(r) && run.states[i + 1].toClient == run.states[i].toClient + {r}
  }

  /** The acknowledgement that a step of the receive loop sends has the bits of exactly those keys of
      which some step up to this one took a packet. */
  lemma AckTellsHistory(comp: seq<byte>, run: Run, i: nat) returns (b: Bits)
    requires IsRun(comp, run) && i < |run.steps| && run.steps[i].ServerRecv? && run.steps[i].ack
    ensures SendsReply(comp, run, i, Reply(0, b))
    ensures forall k: Key :: b[k] <==> Took(run, i + 1, k)
  {
    assert StepAt(run, i);
    b := run.states[i + 1].server.bits;
    forall k: Key ensures b[k] <==> Took(run, i + 1, k) {
      BitsAreHistory(comp, run, i + 1, k);
    }
  }

  /** FIN carries the number that the client waits for, and a bit for every key of the transfer. */
  lemma FinTellsAll(comp: seq<byte>, run: Run, i: nat) returns (b: Bits)
    requires Carried(comp) && IsRun(comp, run) && i < |run.steps| && run.steps[i].ServerFin?
    ensures SendsReply(comp, run, i, Reply(0xffff_ffff, b))
    ensures forall k: Key :: b[k] <==> k <= ChunkCount(|comp|)
  {
    assert StepAt(run, i);
    RunInv(comp, run, i);
    b := run.states[i].server.bits;
  }

  /** Nothing else is ever sent to the client. */
  lemma OtherStepsAreSilent(comp: seq<byte>, run: Run, i: nat)
    requires IsRun(comp, run) && i < |run.steps|
    requires !run.steps[i].ServerFin? && !(run.steps[i].ServerRecv? && run.steps[i].ack)
    ensures ReplyOf(comp, run, i) == None && run.states[i + 1].toClient == run.states[i].toClient
  {
    assert StepAt(run, i);
  }

  /** The client's turn for a key sends the key's packet if the key is in the map and its bit is
      clear, and otherwise nothing; no other step sends anything to the server. */
  lemma TurnSends(comp: seq<byte>, run: Run, i: nat)
    requires Carried(comp) && IsRun(comp, run) && i < |run.steps|
    ensures run.steps[i] != ClientSend ==> run.states[i + 1].toServer == run.states[i].toServer
    ensures run.steps[i] == ClientSend ==>
      var s := run.states[i];
      && s.client.phase.Sending?
      && var k := s.client.phase.next;
         if k in s.client.dataMap && !s.client.donebit[k] then
           k <= ChunkCount(|comp|)
           && run.states[i + 1].toServer == s.toServer + {Packet(k, Payload(comp, k))}
         else run.states[i + 1].toServer == s.toServer
  {
    assert StepAt(run, i);
    RunInv(comp, run, i);
    if run.steps[i] == ClientSend {
      var s := run.states[i];
      assert Sends(s.client, s.client.phase.next) ==> s.client.phase.next in s.client.dataMap.Keys;
    }
  }

  function RoundsEnded(run: Run, n: nat): nat
    requires n <= |run.steps|
  {
    if n == 0 then 0 else RoundsEnded(run, n - 1) + if run.steps[n - 1] == ClientEndRound then 1 else 0
  }

  /** The client's round counter: the first round is number 1, and each round that is ended without
      leaving the loop starts the next. */
  lemma {:induction false} RoundsAreCounted(comp: seq<byte>, run: Run, i: nat)
    requires IsRun(comp, run) && i < |run.states|
    ensures run.states[i].client.phase != Exited(false) ==> run.states[i].client.rounds == 1 + RoundsEnded(run, i)
  {
    if i > 0 {
      RoundsAreCounted(comp, run, i - 1);
      assert StepAt(run, i - 1);
    }
  }

  /** The client hears nothing from step v to step w. */
  ghost predicate Deaf(run: Run, v: nat, w: nat)
    requires v <= w <= |run.steps|
  {
    forall j | v <= j < w :: !ByClient(run.steps[j])
  }

  predicate ByClient(step: Step) {
    step.ClientSend? || step.ClientRecv? || step.ClientEndRound?
  }

  lemma {:induction false} DeafClientStays(comp: seq<byte>, run: Run, v: nat, w: nat)
    requires IsRun(comp, run) && v <= w <= |run.steps| && Deaf(run, v, w)
    ensures run.states[w].client == run.states[v].client
    decreases w - v
  {
    if v < w {
      DeafClientStays(comp, run, v, w - 1);
      assert StepAt(run, w - 1);
      assert !ByClient(run.steps[w - 1]);
    }
  }

  /** What an acknowledgement does for the client: if the one sent at step i is the last one heard
      before the round ends, exactly the keys that had arrived by step i leave the map, and the
      client exits just when no other is left. */
  lemma AckErases(comp: seq<byte>, run: Run, i: nat, v: nat, w: nat)
    requires IsRun(comp, run) && i < |run.steps| && run.steps[i].ServerRecv? && run.steps[i].ack
    requires v < w < |run.steps| && Some(run.steps[v]) == HearingOf(comp, run, i)
    requires Deaf(run, v + 1, w) && run.steps[w] == ClientEndRound
    ensures var before, after := run.states[v].client.dataMap, run.states[w + 1].client;
      && (forall k: Key :: k in after.dataMap <==> k in before && !Took(run, i + 1, k))
      && (after.phase == Exited(false) <==> after.dataMap == map[])
  {
    var b := AckTellsHistory(comp, run, i);
    assert StepAt(run, v);
    DeafClientStays(comp, run, v + 1, w);
    assert StepAt(run, w);
  }

  /** The step in which the client hears the reply of step i. */
  ghost function HearingOf(comp: seq<byte>, run: Run, i: nat): Option<Step>
    requires IsRun(comp, run) && i < |run.steps|
  {
    match ReplyOf(comp, run, i) case None => None case Some(r) => Some(ClientRecv(r))
  }
}
