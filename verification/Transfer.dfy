/** The file transfer as a transition system: the client's rounds, the server's receive loop and
    FIN phase, and a network that may lose, duplicate, delay and reorder. The network is the set
    of all messages ever sent in each direction: receiving a message leaves it there. */
module Transfer {
  import opened Bytes
  import opened Chunks

  function NoBits(): (b: seq<bool>)
    ensures |b| == BITS
  {
    seq(BITS, _ => false)
  }

  type Bits = b: seq<bool> | |b| == BITS witness NoBits()
  type Key = k: nat | k < BITS

  datatype Packet = Packet(dataSeq: Key, data: Data)
  datatype Reply = Reply(dataSeq: uint32, bits: Bits)

  // ---------- Server ----------

  /** Finished(blob): the loop was left, and blob is what was handed to the decompressor. */
  datatype ServerPhase = Receiving | Finished(blob: seq<byte>)

  datatype Server = Server(compSize: uint32, recvSize: uint32, dataMap: map<nat, Data>, bits: Bits,
                           phase: ServerPhase)

  /** The condition of the receive loop. */
  predicate Looping(s: Server) {
    s.compSize == UINT32_MAX || s.recvSize < s.compSize
  }

  /** What one received packet does to the server's variables. */
  function Accept(s: Server, p: Packet): Server {
    var s1 := s.(bits := s.bits[p.dataSeq := true]);
    if p.dataSeq == 0 then s1.(compSize := SizeField(p.data))
    else if p.dataSeq in s.dataMap then s1
    else s1.(dataMap := s.dataMap[p.dataSeq := p.data],
             recvSize := Wrap32(s.recvSize + DATA_SIZE))
  }

  function Ack(s: Server): Reply { Reply(0, s.bits) }

  function Fin(s: Server): Reply { Reply(UINT32_MAX, s.bits) }

  /** The buffer that save_to_file may have assembled: memory no chunk covers is arbitrary. */
  ghost predicate MayAssemble(s: Server, buf: seq<byte>) {
    0 < s.compSize && |buf| == BufferSize(s.compSize) && Placed(buf, s.dataMap, s.dataMap.Keys)
  }

  function Save(s: Server, buf: seq<byte>): Server
    requires s.compSize <= |buf|
  {
    s.(dataMap := map[], phase := Finished(buf[..s.compSize]))
  }

  // ---------- Client ----------

  /** Sending(next): the keys below next have had their turn in this round. */
  datatype ClientPhase = Sending(next: Key) | Reading | Exited(fin: bool)

  datatype Client = Client(dataMap: map<nat, Piece>, donebit: Bits, rounds: nat, phase: ClientPhase)

  predicate Sends(c: Client, k: Key) {
    k in c.dataMap && !c.donebit[k]
  }

  function PacketOf(c: Client, k: Key): Packet
    requires k in c.dataMap
  {
    Packet(k, Padded(c.dataMap[k]))
  }

  function AfterKey(k: Key): ClientPhase {
    if k + 1 < BITS then Sending(k + 1) else Reading
  }

  /** Overwrites the newest bit set with the one that arrived, stale or not. */
  function Heard(c: Client, r: Reply): Client {
    var c1 := c.(donebit := r.bits);
    if r.dataSeq == UINT32_MAX then c1.(phase := Exited(true)) else c1
  }

  function Erased(c: Client): map<nat, Piece> {
    map k | k in c.dataMap && !(k < BITS && c.donebit[k]) :: c.dataMap[k]
  }

  /** The erase loop and the test at the top of the round loop. */
  function NextRound(c: Client): Client {
    var left := Erased(c);
    if left == map[] then c.(dataMap := left, phase := Exited(false))
    else c.(dataMap := left, rounds := c.rounds + 1, phase := Sending(0))
  }

  // ---------- The system ----------

  datatype State = State(client: Client, server: Server, toServer: set<Packet>, toClient: set<Reply>)

  datatype Step =
    | ClientSend
    | ClientRecv(reply: Reply)
    | ClientEndRound
    | ServerRecv(packet: Packet, ack: bool)
    | ServerSave(buf: seq<byte>)
    | ServerFin(packet: Packet)

  /** A blob that the protocol can carry: not empty, and every chunk number has its bit. */
  predicate Carried(comp: seq<byte>) {
    0 < |comp| && ChunkCount(|comp|) < BITS
  }

  function Init(comp: seq<byte>): State {
    State(Client(Entries(comp), NoBits(), 1, Sending(0)),
          Server(UINT32_MAX, 0, map[], NoBits(), Receiving), {}, {})
  }

  ghost predicate Enabled(s: State, step: Step) {
    match step
    case ClientSend => s.client.phase.Sending?
    case ClientRecv(r) => s.client.phase.Reading? && r in s.toClient
    case ClientEndRound => s.client.phase.Reading?
    case ServerRecv(p, _) => s.server.phase.Receiving? && Looping(s.server) && p in s.toServer
    case ServerSave(buf) => s.server.phase.Receiving? && !Looping(s.server) && MayAssemble(s.server, buf)
    case ServerFin(p) => s.server.phase.Finished? && p in s.toServer
  }

  ghost function Apply(s: State, step: Step): State
    requires Enabled(s, step)
  {
    match step
    case ClientSend =>
      var k := s.client.phase.next;
      s.(client := s.client.(phase := AfterKey(k)),
         toServer := s.toServer + if Sends(s.client, k) then {PacketOf(s.client, k)} else {})
    case ClientRecv(r) => s.(client := Heard(s.client, r))
    case ClientEndRound => s.(client := NextRound(s.client))
    case ServerRecv(p, ack) =>
      var server := Accept(s.server, p);
      s.(server := server, toClient := s.toClient + if ack then {Ack(server)} else {})
    case ServerSave(buf) =>
      assert s.server.compSize <= BufferSize(s.server.compSize);
      s.(server := Save(s.server, buf))
    case ServerFin(p) => s.(toClient := s.toClient + {Fin(s.server)})
  }

  /** The reply a step puts on the network, if any. */
  ghost function Emitted(s: State, step: Step): Option<Reply>
    requires Enabled(s, step)
  {
    match step
    case ServerRecv(p, ack) => if ack then Some(Ack(Accept(s.server, p))) else None
    case ServerFin(_) => Some(Fin(s.server))
    case _ => None
  }

  datatype Run = Run(states: seq<State>, steps: seq<Step>)

  ghost predicate IsRun(comp: seq<byte>, run: Run) {
    && |run.states| == |run.steps| + 1
    && run.states[0] == Init(comp)
    && forall i | 0 <= i < |run.steps| :: StepAt(run, i)
  }

  ghost predicate StepAt(run: Run, i: nat)
    requires i < |run.steps| && |run.states| == |run.steps| + 1
  {
    Enabled(run.states[i], run.steps[i]) && run.states[i + 1] == Apply(run.states[i], run.steps[i])
  }
}
