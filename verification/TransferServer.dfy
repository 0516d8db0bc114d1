/** The server program: variables updated in place, proved against the server half of Transfer. */
module TransferServer {
  import opened Bytes
  import Arithmetic = Bits
  import opened Chunks
  import opened Transfer
  import opened TransferSafety
  import Archive

  /** The packets of a loop, taken one after another. */
  function AcceptAll(s: Server, ps: seq<Packet>): Server {
    if ps == [] then s else Accept(AcceptAll(s, ps[..|ps| - 1]), ps[|ps| - 1])
  }

  /** The loop condition held before each of them. */
  predicate LoopsOver(s: Server, ps: seq<Packet>) {
    ps == [] || (LoopsOver(s, ps[..|ps| - 1]) && Looping(AcceptAll(s, ps[..|ps| - 1])))
  }

  lemma {:induction false} LoopedBefore(s: Server, ps: seq<Packet>, n: nat)
    requires n <= |ps| && LoopsOver(s, ps[..n])
    ensures forall j | 0 <= j < n :: Looping(AcceptAll(s, ps[..j]))
  {
    if n > 0 {
      assert ps[..n][..n - 1] == ps[..n - 1];
      LoopedBefore(s, ps, n - 1);
    }
  }

  /** The acknowledgements of a loop over ps. */
  function AcksOf(s: Server, ps: seq<Packet>, due: seq<bool>): seq<Reply>
    requires |ps| <= |due|
  {
    if ps == [] then []
    else AcksOf(s, ps[..|ps| - 1], due) + if due[|ps| - 1] then [Ack(AcceptAll(s, ps))] else []
  }

  predicate Has(ps: seq<Packet>, k: nat) {
    exists p <- ps :: p.dataSeq == k
  }

  function DueCount(due: seq<bool>, n: nat): nat
    requires n <= |due|
  {
    if n == 0 then 0 else DueCount(due, n - 1) + if due[n - 1] then 1 else 0
  }

  /** After packet j, if the timer was due, one acknowledgement says which keys had arrived by then,
      before the loop (before) or in it. */
  ghost predicate ReportAt(before: Bits, ps: seq<Packet>, due: seq<bool>, acks: seq<Reply>, j: nat)
    requires j < |ps| <= |due|
  {
    var n := DueCount(due, j);
    n < |acks| && acks[n].dataSeq == 0 && forall k: Key :: acks[n].bits[k] <==> before[k] || Has(ps[..j + 1], k)
  }

  /** One acknowledgement after each packet at which the timer was due, and no other. */
  ghost predicate Reports(before: Bits, ps: seq<Packet>, due: seq<bool>, acks: seq<Reply>)
    requires |ps| <= |due|
  {
    |acks| == DueCount(due, |ps|) && forall j | 0 <= j < |ps| && due[j] :: ReportAt(before, ps, due, acks, j)
  }

  lemma EarlierReport(before: Bits, ps: seq<Packet>, p: Packet, due: seq<bool>, acks: seq<Reply>, more: seq<Reply>,
                      j: nat)
    requires j < |ps| < |due| && ReportAt(before, ps, due, acks, j)
    ensures ReportAt(before, ps + [p], due, acks + more, j)
  {
    assert (ps + [p])[..j + 1] == ps[..j + 1];
  }

  /** One more packet, and one more acknowledgement if it is due: it repeats the bit set. */
  lemma ReportsSnoc(s: Server, ps: seq<Packet>, p: Packet, due: seq<bool>, acks: seq<Reply>, r: Reply)
    requires |ps| < |due| && Reports(s.bits, ps, due, acks)
    requires r.dataSeq == 0 && r.bits == AcceptAll(s, ps + [p]).bits
    ensures Reports(s.bits, ps + [p], due, acks + if due[|ps|] then [r] else [])
  {
    var n := |ps|;
    var all, now := ps + [p], acks + if due[n] then [r] else [];
    forall j | 0 <= j < n + 1 && due[j] ensures ReportAt(s.bits, all, due, now, j) {
      if j < n {
        EarlierReport(s.bits, ps, p, due, acks, if due[n] then [r] else [], j);
      } else {
        assert now[DueCount(due, n)] == r && all[..n + 1] == all;
        forall k: Key ensures r.bits[k] <==> s.bits[k] || Has(all, k) {
          AcceptAllBits(s, all, k);
        }
      }
    }
  }

  lemma {:induction false} AcksReport(s: Server, ps: seq<Packet>, due: seq<bool>)
    requires |ps| <= |due|
    ensures Reports(s.bits, ps, due, AcksOf(s, ps, due))
  {
    if ps != [] {
      var front, last := ps[..|ps| - 1], ps[|ps| - 1];
      AcksReport(s, front, due);
      assert ps == front + [last];
      ReportsSnoc(s, front, last, due, AcksOf(s, front, due), Ack(AcceptAll(s, ps)));
    }
  }

  class Receiver {
    var compSize: uint32
    var recvSize: uint32
    var dataMap: map<nat, Data>
    var sendSeq: uint32
    const recvbit: array<bool>
    ghost var phase: ServerPhase

    ghost predicate Valid()
      reads this
    {
      recvbit.Length == BITS && sendSeq == if phase.Receiving? then 0 else UINT32_MAX
    }

    ghost function State(): Server
      reads this, recvbit
      requires Valid()
    {
      Server(compSize, recvSize, dataMap, recvbit[..], phase)
    }

    constructor ()
      ensures Valid() && fresh(recvbit)
      ensures Fresh(State()) && forall comp :: State() == Init(comp).server
    {
      compSize, recvSize, dataMap, sendSeq, phase := UINT32_MAX, 0, map[], 0, Receiving;
      recvbit := new bool[BITS](_ => false);
      new;
      assert recvbit[..] == NoBits();
    }

    method Receive(p: Packet)
      requires Valid()
      modifies this`compSize, this`recvSize, this`dataMap, recvbit
      ensures Valid() && State() == Accept(old(State()), p)
    {
      ghost var before := recvbit[..];
      recvbit[p.dataSeq] := true;
      assert recvbit[..] == before[p.dataSeq := true];
      if p.dataSeq == 0 {
        compSize := SizeField(p.data);
      } else if p.dataSeq !in dataMap {
        dataMap := dataMap[p.dataSeq := p.data];
        recvSize := Wrap32(recvSize + DATA_SIZE);
      }
    }

    /** send_hdr as it stands: an acknowledgement, or FIN once the files are saved; either way with
        the bit set as it is. */
    method Response() returns (r: Reply)
      requires Valid()
      ensures r == if phase.Receiving? then Ack(State()) else Fin(State())
      ensures r.dataSeq == (if phase.Receiving? then 0 else 0xffff_ffff) && r.bits == recvbit[..]
    {
      r := Reply(sendSeq, recvbit[..]);
    }

    /** One turn of the receive loop. */
    method ReceiveOne(p: Packet, due: bool) returns (sent: seq<Reply>)
      requires Valid() && phase.Receiving?
      modifies this`compSize, this`recvSize, this`dataMap, recvbit
      ensures Valid() && State() == Accept(old(State()), p)
      ensures sent == if due then [Ack(State())] else []
    {
      Receive(p);
      sent := [];
      if due {
        var r := Response();
        sent := [r];
      }
    }

    /** The receive loop over the packets that arrive; due tells when the ack timer has run out.
        It stops as soon as its counter test fails. */
    method ReceiveLoop(packets: seq<Packet>, due: seq<bool>) returns (used: nat, acks: seq<Reply>)
      requires Valid() && phase.Receiving? && |due| == |packets|
      modifies this`compSize, this`recvSize, this`dataMap, recvbit
      ensures Valid() && used <= |packets|
      ensures State() == AcceptAll(old(State()), packets[..used])
      ensures used < |packets| ==> !Looping(State())
      ensures forall j | 0 <= j < used :: Looping(AcceptAll(old(State()), packets[..j]))
      ensures Reports(old(recvbit[..]), packets[..used], due, acks)
    {
      ghost var start := State();
      used, acks := 0, [];
      while (compSize == UINT32_MAX || recvSize < compSize) && used < |packets|
        invariant Valid() && used <= |packets|
        invariant State() == AcceptAll(start, packets[..used])
        invariant LoopsOver(start, packets[..used])
        invariant acks == AcksOf(start, packets[..used], due)
      {
        assert packets[..used + 1][..used] == packets[..used];
        var sent := ReceiveOne(packets[used], due[used]);
        acks := acks + sent;
        used := used + 1;
      }
      AcksReport(start, packets[..used], due);
      LoopedBefore(start, packets, used);
    }

    /** save_to_file, and the switch to FIN. buf is the reassembly buffer as it was handed to the
        decompressor. */
    method SaveToFile(decompress: seq<byte> -> seq<byte>)
        returns (inBounds: bool, written: seq<Archive.File>, ghost buf: seq<byte>)
      requires Valid() && phase.Receiving? && 0 < compSize
      requires forall k <- dataMap :: k <= ChunkCount(compSize)
      modifies this`dataMap, this`sendSeq, this`phase
      ensures MayAssemble(old(State()), buf)
      ensures Valid() && State() == Save(old(State()), buf)
      ensures dataMap == map[] && sendSeq == 0xffff_ffff
      ensures Archive.Split(decompress(buf[..compSize])) == if inBounds then Some(written) else None
    {
      var compData := Assemble(compSize, dataMap);
      buf := compData[..];
      assert compSize <= BufferSize(compSize);
      var orig := decompress(compData[..compSize]);
      var origData := new byte[|orig|](i requires 0 <= i < |orig| => orig[i]);
      assert origData[..] == orig;
      inBounds, written := Archive.Extract(origData);
      dataMap := map[];
      sendSeq := UINT32_MAX;
      phase := Finished(buf[..compSize]);
    }

    /** The whole server on one arrival order: if the packets are the client's, in any order, with
        any losses and repetitions, the loop is left exactly when every key has arrived, and then
        the files written are the client's. */
    method Serve(packets: seq<Packet>, due: seq<bool>, decompress: seq<byte> -> seq<byte>,
                 ghost files: seq<Archive.File>, ghost comp: seq<byte>)
        returns (done: bool, written: seq<Archive.File>)
      requires Valid() && |due| == |packets| && Carried(comp) && State() == Init(comp).server
      requires Genuine(comp, packets)
      requires Archive.Sized(files) && decompress(comp) == Archive.Blob(files)
      modifies this, recvbit
      ensures Valid()
      ensures done <==> Covers(packets, ChunkCount(|comp|))
      ensures done ==> written == files && State().phase == Finished(comp)
    {
      var used, acks := ReceiveLoop(packets, due);
      LeftIffCovered(comp, packets, used);
      if compSize == UINT32_MAX || recvSize < compSize {
        return false, [];
      }
      done := true;
      ghost var s, buf := State(), [];
      var inBounds;
      inBounds, written, buf := SaveToFile(decompress);
      SaveInv(comp, s, buf);
      Archive.SplitIffBlob(Archive.Blob(files), files);
    }
  }

  ghost predicate Genuine(comp: seq<byte>, ps: seq<Packet>)
    requires Carried(comp)
  {
    forall p <- ps :: p.dataSeq <= ChunkCount(|comp|) && p.data == Payload(comp, p.dataSeq)
  }

  predicate Covers(ps: seq<Packet>, n: nat) {
    forall k: nat | k <= n :: Has(ps, k)
  }

  lemma HasLast(front: seq<Packet>, last: Packet, k: nat)
    ensures Has(front + [last], k) <==> Has(front, k) || last.dataSeq == k
  {
    if Has(front, k) {
      var p :| p in front && p.dataSeq == k;
      assert p in front + [last];
    } else if last.dataSeq == k {
      assert last in front + [last];
    }
  }

  lemma AcceptBits(s: Server, p: Packet, k: Key)
    ensures Accept(s, p).phase == s.phase
    ensures Accept(s, p).bits[k] <==> s.bits[k] || p.dataSeq == k
  {
  }

  lemma {:induction false} AcceptAllBits(s: Server, ps: seq<Packet>, k: Key)
    ensures AcceptAll(s, ps).phase == s.phase
    ensures AcceptAll(s, ps).bits[k] <==> s.bits[k] || Has(ps, k)
  {
    if ps != [] {
      var front, last := ps[..|ps| - 1], ps[|ps| - 1];
      AcceptAllBits(s, front, k);
      AcceptBits(AcceptAll(s, front), last, k);
      HasLast(front, last, k);
      assert ps == front + [last];
    }
  }

  // ---------- The server's variables after any packets ----------

  ghost predicate FirstOf(ps: seq<Packet>, k: nat, data: Data) {
    exists j | 0 <= j < |ps| :: IsPacket(ps[j], k, data) && !Has(ps[..j], k)
  }

  ghost predicate LastOf(ps: seq<Packet>, k: nat, data: Data) {
    exists j | 0 <= j < |ps| :: IsPacket(ps[j], k, data) && !Has(ps[j + 1..], k)
  }

  predicate IsPacket(p: Packet, k: nat, data: Data) {
    p.dataSeq == k && p.data == data
  }

  lemma FirstOfMore(ps: seq<Packet>, p: Packet, k: nat, data: Data)
    ensures FirstOf(ps, k, data) ==> FirstOf(ps + [p], k, data)
    ensures IsPacket(p, k, data) && !Has(ps, k) ==> FirstOf(ps + [p], k, data)
  {
    if j :| 0 <= j < |ps| && IsPacket(ps[j], k, data) && !Has(ps[..j], k) {
      assert (ps + [p])[j] == ps[j] && (ps + [p])[..j] == ps[..j];
    }
    if IsPacket(p, k, data) && !Has(ps, k) {
      assert (ps + [p])[|ps|] == p && (ps + [p])[..|ps|] == ps;
    }
  }

  lemma LastOfMore(ps: seq<Packet>, p: Packet, k: nat, data: Data)
    ensures LastOf(ps, k, data) && p.dataSeq != k ==> LastOf(ps + [p], k, data)
    ensures IsPacket(p, k, data) ==> LastOf(ps + [p], k, data)
  {
    if IsPacket(p, k, data) {
      assert (ps + [p])[|ps|] == p && (ps + [p])[|ps| + 1..] == [];
    } else if p.dataSeq != k {
      if j :| 0 <= j < |ps| && IsPacket(ps[j], k, data) && !Has(ps[j + 1..], k) {
        assert (ps + [p])[j] == ps[j] && (ps + [p])[j + 1..] == ps[j + 1..] + [p];
        HasLast(ps[j + 1..], p, k);
      }
    }
  }

  /** The chunks held: of each key the first that arrived. */
  ghost predicate HoldsFirst(s: Server, ps: seq<Packet>) {
    && (forall k: nat :: k in s.dataMap <==> 0 < k && Has(ps, k))
    && (forall k <- s.dataMap.Keys :: FirstOf(ps, k, s.dataMap[k]))
  }

  /** The counter counts them, in 32 bits. */
  predicate CountsHeld(s: Server) {
    s.recvSize == 1168 * |s.dataMap| % 0x1_0000_0000
  }

  /** The size: that of the last packet 0. */
  ghost predicate HoldsSize(s: Server, ps: seq<Packet>) {
    if Has(ps, 0) then exists data: Data :: LastOf(ps, 0, data) && s.compSize == SizeField(data)
    else s.compSize == 0xffff_ffff
  }

  lemma CounterStep(n: nat, size: uint32)
    requires size == 1168 * n % 0x1_0000_0000
    ensures Wrap32(size + 1168) == 1168 * (n + 1) % 0x1_0000_0000
  {
    var m, q := 0x1_0000_0000, 1168 * n / 0x1_0000_0000;
    var d, r := (size + 1168) / m, (size + 1168) % m;
    Arithmetic.DivUnique(1168 * (n + 1), m, q + d, r);
  }

  lemma HoldsFirstStep(s: Server, ps: seq<Packet>, p: Packet)
    requires HoldsFirst(s, ps)
    ensures HoldsFirst(Accept(s, p), ps + [p])
  {
    var all, t := ps + [p], Accept(s, p);
    forall k: nat ensures Has(all, k) <==> Has(ps, k) || p.dataSeq == k {
      HasLast(ps, p, k);
    }
    forall k <- t.dataMap.Keys ensures FirstOf(all, k, t.dataMap[k]) {
      FirstOfMore(ps, p, k, t.dataMap[k]);
    }
  }

  lemma CountsHeldStep(s: Server, p: Packet)
    requires CountsHeld(s)
    ensures CountsHeld(Accept(s, p))
  {
    CounterStep(|s.dataMap|, s.recvSize);
  }

  lemma HoldsSizeStep(s: Server, ps: seq<Packet>, p: Packet)
    requires HoldsSize(s, ps)
    ensures HoldsSize(Accept(s, p), ps + [p])
  {
    HasLast(ps, p, 0);
    if p.dataSeq == 0 {
      LastOfMore(ps, p, 0, p.data);
    } else if Has(ps, 0) {
      var data: Data :| LastOf(ps, 0, data) && s.compSize == SizeField(data);
      LastOfMore(ps, p, 0, data);
    }
  }

  predicate Fresh(s: Server) {
    s == Server(0xffff_ffff, 0, map[], NoBits(), Receiving)
  }

  /** What a server that started afresh holds after any packets, genuine or not. */
  lemma {:induction false} AcceptAllHolds(s: Server, ps: seq<Packet>)
    requires Fresh(s)
    ensures HoldsFirst(AcceptAll(s, ps), ps) && HoldsSize(AcceptAll(s, ps), ps) && CountsHeld(AcceptAll(s, ps))
  {
    if ps != [] {
      var front, last := ps[..|ps| - 1], ps[|ps| - 1];
      AcceptAllHolds(s, front);
      assert ps == front + [last];
      HoldsFirstStep(AcceptAll(s, front), front, last);
      HoldsSizeStep(AcceptAll(s, front), front, last);
      CountsHeldStep(AcceptAll(s, front), last);
    }
  }

  /** Any sequence of the client's packets keeps the server's invariant. */
  lemma {:induction false} AcceptAllInv(comp: seq<byte>, s: Server, ps: seq<Packet>)
    requires Carried(comp) && ServerInv(comp, s) && s.phase.Receiving? && Genuine(comp, ps)
    ensures ServerInv(comp, AcceptAll(s, ps)) && AcceptAll(s, ps).phase.Receiving?
  {
    if ps != [] {
      var front, last := ps[..|ps| - 1], ps[|ps| - 1];
      AcceptAllInv(comp, s, front);
      AcceptInv(comp, AcceptAll(s, front), last);
    }
  }

  /** On the client's packets the counter test fails exactly when every key has arrived. */
  lemma DoneIffCovered(comp: seq<byte>, ps: seq<Packet>)
    requires Carried(comp) && Genuine(comp, ps)
    ensures var s := AcceptAll(Init(comp).server, ps);
      ServerInv(comp, s) && s.phase.Receiving? && (!Looping(s) <==> Covers(ps, ChunkCount(|comp|)))
  {
    InitInv(comp);
    AcceptAllInv(comp, Init(comp).server, ps);
    CounterIsSet(comp, AcceptAll(Init(comp).server, ps));
    forall k: nat | k <= ChunkCount(|comp|)
      ensures AcceptAll(Init(comp).server, ps).bits[k] <==> Has(ps, k)
    {
      AcceptAllBits(Init(comp).server, ps, k);
    }
  }

  lemma LeftIffCovered(comp: seq<byte>, ps: seq<Packet>, used: nat)
    requires Carried(comp) && Genuine(comp, ps) && used <= |ps|
    requires used < |ps| ==> !Looping(AcceptAll(Init(comp).server, ps[..used]))
    ensures var s := AcceptAll(Init(comp).server, ps[..used]);
      ServerInv(comp, s) && s.phase.Receiving? && (!Looping(s) <==> Covers(ps, ChunkCount(|comp|)))
      && (!Looping(s) ==> 0 < s.compSize && forall k <- s.dataMap :: k <= ChunkCount(s.compSize))
  {
    DoneIffCovered(comp, ps[..used]);
    if used == |ps| {
      assert ps[..used] == ps;
    } else {
      forall k: nat | Has(ps[..used], k) ensures Has(ps, k) {}
    }
    CounterIsSet(comp, AcceptAll(Init(comp).server, ps[..used]));
  }
}
