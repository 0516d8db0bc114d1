/** The client program: variables updated in place, proved against the client half of Transfer. */
module TransferClient {
  import opened Bytes
  import opened Chunks
  import opened Transfer
  import Archive

  function TurnPackets(c: Client, k: Key): seq<Packet> {
    if Sends(c, k) then [PacketOf(c, k)] else []
  }

  /** The packets of one round for the keys below upto, in key order. */
  function RoundPackets(c: Client, upto: nat): seq<Packet>
    requires upto <= |c.donebit|
  {
    if upto == 0 then [] else RoundPackets(c, upto - 1) + TurnPackets(c, upto - 1)
  }

  /** A round sends exactly the packets of the keys that the transition system's turns send. */
  lemma {:induction false} RoundSends(c: Client, upto: nat, p: Packet)
    requires upto <= |c.donebit|
    ensures p in RoundPackets(c, upto) <==> p.dataSeq < upto && Sends(c, p.dataSeq) && p == PacketOf(c, p.dataSeq)
  {
    if upto > 0 {
      RoundSends(c, upto - 1, p);
    }
  }

  /** It sends each key at most once, in increasing order. */
  lemma {:induction false} RoundIsOrdered(c: Client, upto: nat, i: nat, j: nat)
    requires upto <= |c.donebit| && i < j < |RoundPackets(c, upto)|
    ensures RoundPackets(c, upto)[i].dataSeq < RoundPackets(c, upto)[j].dataSeq
  {
    var front, turn := RoundPackets(c, upto - 1), TurnPackets(c, upto - 1);
    if j < |front| {
      RoundIsOrdered(c, upto - 1, i, j);
    } else {
      RoundSends(c, upto - 1, front[i]);
    }
  }

  /** read_resps on the replies that arrive: nothing is read after FIN. */
  function HeardAll(c: Client, rs: seq<Reply>): Client {
    if rs == [] then c
    else
      var c1 := HeardAll(c, rs[..|rs| - 1]);
      if c1.phase.Exited? then c1 else Heard(c1, rs[|rs| - 1])
  }

  /** Reply j is the first with the number 2^32 - 1. */
  predicate FirstFin(rs: seq<Reply>, j: nat) {
    j < |rs| && rs[j].dataSeq == 0xffff_ffff && forall i | 0 <= i < j :: rs[i].dataSeq != 0xffff_ffff
  }

  /** Hearing replies without a FIN: the client goes on reading, with the bits of the last one. */
  lemma {:induction false} HeardWithoutFin(c: Client, rs: seq<Reply>)
    requires c.phase.Reading? && forall j | 0 <= j < |rs| :: rs[j].dataSeq != 0xffff_ffff
    ensures HeardAll(c, rs) == if rs == [] then c else c.(donebit := rs[|rs| - 1].bits)
  {
    if rs != [] {
      HeardWithoutFin(c, rs[..|rs| - 1]);
    }
  }

  /** The first FIN ends the process, with its bits, whatever comes after it. */
  lemma HeardUntilFin(c: Client, rs: seq<Reply>, j: nat)
    requires c.phase.Reading? && FirstFin(rs, j)
    ensures HeardAll(c, rs) == c.(donebit := rs[j].bits, phase := Exited(true))
  {
    HeardWithoutFin(c, rs[..j]);
    assert rs[..j + 1][..j] == rs[..j];
    assert HeardAll(c, rs[..j + 1]) == Heard(HeardAll(c, rs[..j]), rs[j]);
    NothingAfterExit(c, rs, j + 1);
  }

  /** wrap_send: a zeroed header, the sequence number, and the data copied in. */
  method WrapSend(dataSeq: Key, data: Piece) returns (p: Packet)
    ensures p == Packet(dataSeq, Padded(data))
  {
    var hdr := new byte[DATA_SIZE](_ => 0);
    CopyInto(hdr, 0, data);
    assert hdr[..] == Padded(data);
    p := Packet(dataSeq, hdr[..]);
  }

  class Sender {
    var dataMap: map<nat, Piece>
    var rounds: nat
    const donebit: array<bool>
    ghost var phase: ClientPhase

    ghost predicate Valid()
      reads this
    {
      donebit.Length == BITS && forall k <- dataMap :: k < BITS
    }

    ghost function State(): Client
      reads this, donebit
      requires Valid()
    {
      Client(dataMap, donebit[..], rounds, phase)
    }

    /** Packing, compressing and cutting, up to the top of the first round. */
    constructor (files: seq<Archive.File>, compress: seq<byte> -> seq<byte>)
      requires Carried(compress(Archive.Blob(files)))
      ensures Valid() && fresh(donebit)
      ensures State() == Init(compress(Archive.Blob(files))).client
    {
      var data := Archive.Pack(files);
      var comp := compress(data[..]);
      var entries := Cut(comp);
      dataMap := entries;
      rounds, phase := 1, Sending(0);
      donebit := new bool[BITS](_ => false);
      new;
      assert donebit[..] == NoBits();
    }

    /** One turn of the sending loop. */
    method Turn(key: Key) returns (sent: seq<Packet>)
      requires Valid()
      ensures sent == TurnPackets(State(), key)
    {
      sent := [];
      if key in dataMap && !donebit[key] {
        var p := WrapSend(key, dataMap[key]);
        sent := [p];
      }
    }

    /** The sending loop of a round. */
    method SendRound() returns (sent: seq<Packet>)
      requires Valid() && phase == Sending(0)
      modifies this`phase
      ensures Valid() && State() == old(State()).(phase := Reading)
      ensures sent == RoundPackets(old(State()), donebit.Length)
    {
      ghost var c := State();
      sent := [];
      for key := 0 to donebit.Length
        invariant sent == RoundPackets(c, key)
      {
        var now := Turn(key);
        sent := sent + now;
      }
      phase := Reading;
    }

    /** read_resps; done means the process has exited on FIN. */
    method ReadResps(replies: seq<Reply>) returns (done: bool)
      requires Valid() && phase.Reading?
      modifies this`phase, donebit
      ensures Valid() && State() == HeardAll(old(State()), replies)
      ensures done <==> phase.Exited?
    {
      ghost var c := State();
      done := false;
      var i := 0;
      while i < |replies| && !done
        invariant i <= |replies| && Valid()
        invariant State() == HeardAll(c, replies[..i])
        invariant if done then phase.Exited? else phase.Reading?
      {
        assert replies[..i + 1][..i] == replies[..i];
        var res := replies[i];
        forall k | 0 <= k < BITS { donebit[k] := res.bits[k]; }
        assert donebit[..] == res.bits;
        if res.dataSeq == UINT32_MAX {
          done := true;
          phase := Exited(true);
        }
        i := i + 1;
      }
      if done {
        NothingAfterExit(c, replies, i);
      }
      assert replies[..|replies|] == replies;
    }

    /** The erase loop and the test at the top of the next round. */
    method EndRound() returns (done: bool)
      requires Valid() && phase.Reading?
      modifies this
      ensures Valid() && State() == NextRound(old(State()))
      ensures done <==> phase.Exited?
    {
      ghost var c := State();
      for i := 0 to BITS
        invariant donebit[..] == c.donebit && rounds == c.rounds && phase == c.phase
        invariant dataMap == map k | k in c.dataMap && !(k < i && c.donebit[k]) :: c.dataMap[k]
      {
        if donebit[i] {
          dataMap := dataMap - {i};
        }
      }
      assert dataMap == Erased(c);
      done := dataMap == map[];
      if done {
        phase := Exited(false);
      } else {
        rounds := rounds + 1;
        phase := Sending(0);
      }
    }
  }

  lemma {:induction false} NothingAfterExit(c: Client, rs: seq<Reply>, i: nat)
    requires i <= |rs| && HeardAll(c, rs[..i]).phase.Exited?
    ensures HeardAll(c, rs) == HeardAll(c, rs[..i])
    decreases |rs|
  {
    if i < |rs| {
      assert rs[..|rs| - 1][..i] == rs[..i];
      NothingAfterExit(c, rs[..|rs| - 1], i);
    } else {
      assert rs[..i] == rs;
    }
  }
}
