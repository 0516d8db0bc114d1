/** The name server: from query bytes to response bytes. */
module DnsServer {
  import opened Bytes
  import opened DnsNames
  import opened DnsMessage
  import opened DnsZone
  import opened DnsHeader

  type Pton = seq<byte> -> Option<seq<byte>>

  // ---------- Specification ----------

  /** The walk of query: the queried name, then the names above it, down to one label. */
  function Walk(zones: set<DN>, dn: DN): Option<DN> {
    if dn == [] then None
    else if dn in zones then Some(dn)
    else Walk(zones, dn[..|dn| - 1])
  }

  /** The walk finds the longest configured zone that is an ancestor of the name. */
  lemma {:induction false} WalkIsLongest(zones: set<DN>, dn: DN)
    ensures var z := Walk(zones, dn);
      && (z.Some? ==> z.value in zones && z.value != [] && z.value <= dn)
      && (forall y: DN | y in zones && y != [] && y <= dn :: z.Some? && |y| <= |z.value|)
  {
    if dn != [] && dn !in zones {
      var up := dn[..|dn| - 1];
      WalkIsLongest(zones, up);
      forall y: DN | y in zones && y != [] && y <= dn ensures y <= up {
        assert |y| == |dn| ==> y == dn;
      }
    }
  }

  datatype Error = Forward | NoImplementation | BadFormat | Failure

  /** What Server::query(Header) does: the message as it leaves it, and what it throws, if anything. */
  datatype Result = Result(threw: Option<Error>, m: Message)

  function Reply(m: Message): Result { Result(None, m) }

  function Throws(e: Error, m: Message): Result { Result(Some(e), m) }

  /** Every zone has the SOA record that loading it asserts. */
  predicate Loaded(data: map<DN, seq<Record>>) {
    forall z <- data.Keys :: Matching(data[z], Key(z, SOA, IN)) != []
  }

  function NameErrorReply(zone: DN, file: seq<Record>, m: Message): Message {
    m.(head := m.head.(rcode := 3), authority := Matching(file, Key(zone, SOA, IN)))
  }

  function AllAddresses(file: seq<Record>, rrs: seq<Record>): seq<Record> {
    if rrs == [] then [] else AllAddresses(file, rrs[..|rrs| - 1]) + Addresses(file, rrs[|rrs| - 1].datadn)
  }

  function Authoritative(m: Message): Message {
    m.(head := m.head.(aa := true, rd := true, ra := false, rcode := 0))
  }

  function AnswerFrom(zone: DN, file: seq<Record>, q: Question, m: Message, pton: Pton): Result {
    match Lookup(zone, file, q, pton)
    case ServerFailure => Throws(Failure, m)
    case FormatError => Throws(BadFormat, m)
    case NotImplemented => Throws(NoImplementation, m)
    case NameError => Reply(NameErrorReply(zone, file, m))
    case Found(rrs) =>
      var m2 := m.(answer := m.answer + rrs, additional := m.additional + AllAddresses(file, rrs));
      var ns := Matching(file, Key(zone, NS, IN));
      if q.qtype == NS then Reply(m2)
      else if ns == [] then Reply(NameErrorReply(zone, file, m2))
      else Reply(m2.(authority := m2.authority + ns))
  }

  function Respond(data: map<DN, seq<Record>>, m: Message, pton: Pton): Result {
    if m.head.qd != 1 || |m.question| != 1 then Throws(NoImplementation, m) else
    match Walk(data.Keys, m.question[0].domain)
    case None => Throws(Forward, m)
    case Some(zone) =>
      WalkIsLongest(data.Keys, m.question[0].domain);
      AnswerFrom(zone, data[zone], m.question[0], Authoritative(m), pton)
  }

  function WithRcode(m: Message, rcode: nibble): Message {
    m.(head := m.head.(rcode := rcode))
  }

  /** The catch clauses of Server::query(string); None means the query is forwarded. */
  function Outcome(r: Result): Option<Message> {
    match r.threw
    case None => Some(r.m)
    case Some(Forward) => None
    case Some(BadFormat) => Some(WithRcode(r.m, 1))
    case Some(NoImplementation) => Some(WithRcode(r.m, 4))
    case Some(Failure) => Some(WithRcode(r.m, 2))
  }

  // ---------- Main results ----------

  /** A query is forwarded exactly when it has one question and no configured zone is an ancestor of
      its name; the zone that is found always contains the name, so SERVER_FAILURE never occurs. */
  lemma ForwardIff(data: map<DN, seq<Record>>, m: Message, pton: Pton)
    requires |m.question| == m.head.qd && Loaded(data)
    ensures ReactionTo(data, m, pton) == Forwarded <==>
      |m.question| == 1 && forall z: DN | z in data && z != [] :: !(z <= m.question[0].domain)
    ensures Respond(data, m, pton).threw != Some(Failure)
  {
    ForwardedIff(data, m, pton);
    if |m.question| == 1 {
      var d := m.question[0].domain;
      WalkIsLongest(data.Keys, d);
      if Walk(data.Keys, d).Some? {
        var zone := Walk(data.Keys, d).value;
        AnswerThrows(zone, data[zone], m.question[0], Authoritative(m), pton);
      }
    }
  }

  lemma ForwardedIff(data: map<DN, seq<Record>>, m: Message, pton: Pton)
    ensures ReactionTo(data, m, pton) == Forwarded <==> Respond(data, m, pton).threw == Some(Forward)
  {
  }

  /** The bytes of the reply are what is sent back. */
  lemma ReactionOf(data: map<DN, seq<Record>>, m: Message, pton: Pton, reply: Message)
    requires Outcome(Respond(data, m, pton)) == Some(reply)
    ensures ReactionTo(data, m, pton) == Bytes(MessageBytes(reply))
  {
  }

  lemma AnswerThrows(zone: DN, file: seq<Record>, q: Question, m: Message, pton: Pton)
    requires zone <= q.domain
    ensures AnswerFrom(zone, file, q, m, pton).threw !in {Some(Forward), Some(Failure)}
  {
  }

  /** For a query of a type that the server knows (A, NS, CNAME, SOA, MX, TXT or AAAA) which the longest
      matching zone answers: the answer section is the zone's records of that name, type and class, in
      file order. RCODE is 3 exactly when there are none, or when NS records have to be added and the
      zone has none at its own name; the authority section then holds the SOA record. */
  lemma ZoneAnswer(data: map<DN, seq<Record>>, m: Message, zone: DN, pton: Pton)
    requires |m.question| == 1 && m.head.qd == 1 && m.answer == m.authority == m.additional == [] && Loaded(data)
    requires var d := m.question[0].domain;
      zone in data && zone != [] && zone <= d && forall z: DN | z in data && z <= d :: |z| <= |zone|
    requires m.question[0].qtype in {1, 2, 5, 6, 15, 16, 28} && !NipShaped(m.question[0].domain, zone)
    ensures var q, r := m.question[0], Respond(data, m, pton);
      var own := Matching(data[zone], KeyOfQuestion(q));
      var ns, soa := Matching(data[zone], Key(zone, 2, 1)), Matching(data[zone], Key(zone, 6, 1));
      && r.threw == None && soa != []
      && r.m.answer == own && r.m.question == m.question
      && r.m.head == m.head.(aa := true, rd := true, ra := false, rcode := r.m.head.rcode)
      && r.m.head.rcode == (if own == [] || (q.qtype != 2 && ns == []) then 3 else 0)
      && r.m.authority == (if r.m.head.rcode == 3 then soa else if q.qtype == 2 then [] else ns)
      && r.m.additional == AllAddresses(data[zone], own)
  {
    WalkFinds(data.Keys, m.question[0].domain, zone);
    AnswerOf(zone, data[zone], m.question[0], Authoritative(m), pton);
  }

  lemma AnswerOf(zone: DN, file: seq<Record>, q: Question, m: Message, pton: Pton)
    requires zone <= q.domain && Supported(q.qtype) && !NipShaped(q.domain, zone)
    requires m.answer == m.authority == m.additional == [] && m.head.rcode == 0
    ensures var r := AnswerFrom(zone, file, q, m, pton);
      var own := Matching(file, KeyOfQuestion(q));
      var ns, soa := Matching(file, Key(zone, NS, IN)), Matching(file, Key(zone, SOA, IN));
      && r.threw == None
      && r.m.answer == own && r.m.question == m.question
      && r.m.head == m.head.(rcode := r.m.head.rcode)
      && r.m.head.rcode == (if own == [] || (q.qtype != NS && ns == []) then 3 else 0)
      && r.m.authority == (if r.m.head.rcode == 3 then soa else if q.qtype == NS then [] else ns)
      && r.m.additional == AllAddresses(file, own)
  {
    var own, ns := Matching(file, KeyOfQuestion(q)), Matching(file, Key(zone, NS, IN));
    assert Lookup(zone, file, q, pton) == if own == [] then NameError else Found(own);
    EmptyPlus(own);
    EmptyPlus(ns);
    EmptyPlus(AllAddresses(file, own));
  }

  lemma WalkFinds(zones: set<DN>, d: DN, zone: DN)
    requires zone in zones && zone != [] && zone <= d && forall z: DN | z in zones && z <= d :: |z| <= |zone|
    ensures Walk(zones, d) == Some(zone)
  {
    WalkIsLongest(zones, d);
    var z := Walk(zones, d).value;
    assert |z| == |zone|;
    assert z == d[..|z|] && zone == d[..|zone|];
  }

  /** A name of the nip shape is answered with the address that it spells, whatever type is asked for
      and whatever records the zone has for it. The rest of the reply is as for any other answer: the
      zone's NS records, or RCODE 3 with its SOA record when it has none and the type is not NS, and
      the addresses of the root name, which is what the record points at. An address that does not
      parse gives RCODE 1 and no records. */
  lemma NipAnswer(data: map<DN, seq<Record>>, m: Message, zone: DN, pton: Pton)
    requires |m.question| == 1 && m.head.qd == 1 && m.answer == m.authority == m.additional == []
    requires var d := m.question[0].domain;
      Walk(data.Keys, d) == Some(zone) && zone in data && NipShaped(d, zone)
    ensures var q, r := m.question[0], Respond(data, m, pton);
      var text := NipText(q.domain, zone);
      var ns, soa := Matching(data[zone], Key(zone, 2, 1)), Matching(data[zone], Key(zone, 6, 1));
      match pton(text)
      case Some(rdata) =>
        && r.threw == None && r.m.question == m.question
        && r.m.answer == [Record(q.domain, 1, 1, 1, text, rdata, [])]
        && r.m.head == m.head.(aa := true, rd := true, ra := false, rcode := r.m.head.rcode)
        && r.m.head.rcode == (if q.qtype != 2 && ns == [] then 3 else 0)
        && r.m.authority == (if r.m.head.rcode == 3 then soa else if q.qtype == 2 then [] else ns)
        && r.m.additional == Addresses(data[zone], [])
      case None =>
        && r.threw == Some(BadFormat) && Outcome(r).Some? && Outcome(r).value.head.rcode == 1
        && r.m.answer == r.m.authority == r.m.additional == []
  {
    NipAnswerFrom(zone, data[zone], m.question[0], Authoritative(m), pton);
  }

  lemma NipAnswerFrom(zone: DN, file: seq<Record>, q: Question, m: Message, pton: Pton)
    requires NipShaped(q.domain, zone) && m.head.rcode == 0
    requires m.answer == m.authority == m.additional == []
    ensures var r, text := AnswerFrom(zone, file, q, m, pton), NipText(q.domain, zone);
      var ns, soa := Matching(file, Key(zone, NS, IN)), Matching(file, Key(zone, SOA, IN));
      match pton(text)
      case Some(rdata) =>
        && r.threw == None && r.m.question == m.question
        && r.m.answer == [Record(q.domain, A, IN, 1, text, rdata, [])]
        && r.m.head == m.head.(rcode := r.m.head.rcode)
        && r.m.head.rcode == (if q.qtype != NS && ns == [] then 3 else 0)
        && r.m.authority == (if r.m.head.rcode == 3 then soa else if q.qtype == NS then [] else ns)
        && r.m.additional == Addresses(file, [])
      case None => r == Throws(BadFormat, m)
  {
    var text := NipText(q.domain, zone);
    if pton(text).Some? {
      var rr := Record(q.domain, A, IN, 1, text, pton(text).value, []);
      assert Lookup(zone, file, q, pton) == Found([rr]);
      EmptyPlus([rr]);
      EmptyPlus(Matching(file, Key(zone, NS, IN)));
      AddressesOfOne(file, rr);
      EmptyPlus(AllAddresses(file, [rr]));
    }
  }

  lemma AddressesOfOne(file: seq<Record>, rr: Record)
    ensures AllAddresses(file, [rr]) == Addresses(file, rr.datadn)
  {
    AddressesSnoc(file, [rr], 0);
    assert [rr][..0] == [] && [rr][..1] == [rr];
    EmptyPlus(Addresses(file, rr.datadn));
  }

  /** A zone org with an SOA and an A record and no NS record: asked for the A record, the server
      puts it into the answer and says that the name does not exist. */
  lemma FoundAndNameError(pton: Pton)
    ensures var org: DN, soa, a := [[111, 114, 103]], Plain(SOA), Plain(A);
      var m := Message(PlainHead(), [Question(org, A, IN)], [], [], []);
      var r := Respond(map[org := [soa, a]], m, pton);
      r.threw == None && r.m.answer == [a] && r.m.authority == [soa] && r.m.head.rcode == 3
  {
    var org: DN, soa, a := [[111, 114, 103]], Plain(SOA), Plain(A);
    var file, data := [soa, a], map[org := [soa, a]];
    MatchingTwo(soa, a, Key(org, A, IN));
    MatchingTwo(soa, a, Key(org, NS, IN));
    MatchingTwo(soa, a, Key(org, SOA, IN));
    ZoneAnswer(data, Message(PlainHead(), [Question(org, A, IN)], [], [], []), org, pton);
  }

  function Plain(t: uint16): Record {
    Record([[111, 114, 103]], t, IN, 60, [], [], [])
  }

  function PlainHead(): Head {
    Head(1, false, 0, false, false, true, false, 0, 0, 1, 0, 0, 0)
  }

  lemma MatchingTwo(x: Record, y: Record, key: Key)
    ensures Matching([x, y], key) == (if KeyOf(x) == key then [x] else []) + (if KeyOf(y) == key then [y] else [])
  {
    MatchingSnoc([], x, key);
    MatchingSnoc([x], y, key);
    assert [] + [x] == [x] && [x] + [y] == [x, y];
    EmptyPlus(if KeyOf(x) == key then [x] else []);
  }

  /** The response code of everything that the parsing and answering of a query can throw. */
  lemma ThrownCodes(m: Message)
    ensures Outcome(Throws(BadFormat, m)) == Some(m.(head := m.head.(rcode := 1)))
    ensures Outcome(Throws(NoImplementation, m)) == Some(m.(head := m.head.(rcode := 4)))
    ensures Outcome(Throws(Failure, m)) == Some(m.(head := m.head.(rcode := 2)))
    ensures Outcome(Throws(Forward, m)) == None && Outcome(Reply(m)) == Some(m)
  {
  }

  /** A message without exactly one question is not implemented: RCODE 4, everything else as it came,
      no records. */
  lemma NotOneQuestion(data: map<DN, seq<Record>>, m: Message, pton: Pton)
    requires |m.question| == m.head.qd != 1
    ensures Outcome(Respond(data, m, pton)) == Some(m.(head := m.head.(rcode := 4)))
  {
  }

  /** Nor is a type that the server does not know, unless the name spells an address: RCODE 4 from the
      zone that is in charge, no records. */
  lemma UnknownType(data: map<DN, seq<Record>>, m: Message, zone: DN, pton: Pton)
    requires |m.question| == 1 && m.head.qd == 1
    requires var d := m.question[0].domain;
      zone in data && zone != [] && zone <= d && forall z: DN | z in data && z <= d :: |z| <= |zone|
    requires m.question[0].qtype !in {1, 2, 5, 6, 15, 16, 28} && !NipShaped(m.question[0].domain, zone)
    ensures Outcome(Respond(data, m, pton)) ==
      Some(m.(head := m.head.(aa := true, rd := true, ra := false, rcode := 4)))
  {
    WalkFinds(data.Keys, m.question[0].domain, zone);
  }

  /** What is not implemented. */
  ghost predicate NotImplementedCase(data: map<DN, seq<Record>>, m: Message, zone: DN) {
    if |m.question| != 1 then true
    else
      var q := m.question[0];
      && zone in data && zone != [] && zone <= q.domain
      && (forall z: DN | z in data && z <= q.domain :: |z| <= |zone|)
      && q.qtype !in {1, 2, 5, 6, 15, 16, 28} && !NipShaped(q.domain, zone)
  }

  /** The same from query bytes to reply bytes: reading the reply yields the questions, RCODE 4, and no
      record in any section. */
  lemma NotImplementedOnWire(data: map<DN, seq<Record>>, query: seq<byte>, zone: DN, pton: Pton) returns (b: seq<byte>)
    requires ParseMessage(query).Some? && NotImplementedCase(data, ParseMessage(query).value, zone)
    ensures ReactionToBytes(data, ParseMessage(query), pton) == Some(Bytes(b))
    ensures var m := ParseMessage(query).value;
      ReadMessage(b).Some? && var w := ReadMessage(b).value;
      && w.question == m.question && w.answer == [] && w.authority == [] && w.additional == []
      && w.head.rcode == 4 && w.head.id == m.head.id && w.head.qr && w.head.opcode == m.head.opcode
      && (|m.question| == 1 ==> w.head.aa)
  {
    var m := ParseMessage(query).value;
    ParsedMessageIsWire(query);
    if |m.question| != 1 {
      NotOneQuestion(data, m, pton);
    } else {
      UnknownType(data, m, zone, pton);
    }
    var reply := Outcome(Respond(data, m, pton)).value;
    MessageReadsBack(reply);
    ResponseFields(reply);
    b := MessageBytes(reply);
  }

  /** The zones' records fit their wire form. */
  ghost predicate WireData(data: map<DN, seq<Record>>) {
    forall z <- data.Keys :: WireRecords(data[z])
  }

  /** inet_pton's results are short, as the 4 bytes of an address are. */
  ghost predicate ShortAddresses(pton: Pton) {
    forall text: seq<byte> :: pton(text).Some? ==> |pton(text).value| < 0x1_0000
  }

  predicate CountsFit(m: Message) {
    |m.answer| < 0x1_0000 && |m.authority| < 0x1_0000 && |m.additional| < 0x1_0000
  }

  /** The reply's bytes parse to m's id, opcode and questions, with QR set, Z clear and the right
      number of questions. */
  ghost predicate Echoes(m: Message, reply: Message) {
    var h := Response(reply);
    && ParseMessage(MessageBytes(reply)) == Some(Message(h, m.question, [], [], []))
    && h.id == m.head.id && h.opcode == m.head.opcode && h.rcode == reply.head.rcode
    && h.qr && h.z == 0 && h.qd == m.head.qd == |m.question|
  }

  /** What the client gets back, read from the bytes: header and questions as the program's own
      parser reads them, and every record of every section. */
  lemma ReplyOnWire(data: map<DN, seq<Record>>, query: seq<byte>, pton: Pton)
    requires ParseMessage(query).Some? && Outcome(Respond(data, ParseMessage(query).value, pton)).Some?
    ensures var m := ParseMessage(query).value;
      var reply := Outcome(Respond(data, m, pton)).value;
      Echoes(m, reply) &&
      (WireData(data) && ShortAddresses(pton) && CountsFit(reply) ==>
         ReadMessage(MessageBytes(reply)) == Some(WireOf(reply)))
  {
    var m := ParseMessage(query).value;
    var reply := Outcome(Respond(data, m, pton)).value;
    ParsedMessageIsWire(query);
    ReplyKeeps(data, m, pton);
    ReplyEchoes(m, reply);
    if WireData(data) && ShortAddresses(pton) && CountsFit(reply) {
      ReplyIsWire(data, m, pton);
      MessageReadsBack(reply);
    }
  }

  lemma ReplyParses(reply: Message)
    requires WireQuestions(reply.question) && |reply.question| < 0x1_0000
    ensures ParseMessage(MessageBytes(reply)) == Some(Message(Response(reply), reply.question, [], [], []))
  {
    MessageRoundTrip(reply);
  }

  lemma ReplyEchoes(m: Message, reply: Message)
    requires WireQuestions(m.question) && |m.question| == m.head.qd
    requires reply.question == m.question && reply.head.id == m.head.id && reply.head.opcode == m.head.opcode
    ensures Echoes(m, reply)
  {
    ReplyParses(reply);
    ResponseFields(reply);
    Narrowed16(|m.question|);
  }

  /** A query for records of a zone, from its bytes to the bytes of its answer: reading these yields
      the zone's records of that name, type and class, the authority that goes with them, and the
      addresses of the names that they point at. */
  lemma ZoneAnswerOnWire(data: map<DN, seq<Record>>, query: seq<byte>, zone: DN, pton: Pton)
    requires ParseMessage(query).Some? && |ParseMessage(query).value.question| == 1
    requires Loaded(data) && WireData(data) && ShortAddresses(pton)
    requires var q := ParseMessage(query).value.question[0];
      zone in data && zone != [] && zone <= q.domain && (forall z: DN | z in data && z <= q.domain :: |z| <= |zone|)
      && q.qtype in {1, 2, 5, 6, 15, 16, 28} && !NipShaped(q.domain, zone)
    requires CountsFit(Respond(data, ParseMessage(query).value, pton).m)
    ensures var q, r := ParseMessage(query).value.question[0], Respond(data, ParseMessage(query).value, pton);
      var own := Matching(data[zone], KeyOfQuestion(q));
      var ns, soa := Matching(data[zone], Key(zone, 2, 1)), Matching(data[zone], Key(zone, 6, 1));
      var missing := own == [] || (q.qtype != 2 && ns == []);
      ReadMessage(MessageBytes(r.m)) ==
        Some(Wire(Response(r.m), [q], AllOnWire(own),
                  AllOnWire(if missing then soa else if q.qtype == 2 then [] else ns),
                  AllOnWire(AllAddresses(data[zone], own))))
      && Response(r.m).rcode == (if missing then 3 else 0) && Response(r.m).aa
  {
    var m := ParseMessage(query).value;
    ParsedMessageIsWire(query);
    ZoneAnswer(data, m, zone, pton);
    ReplyReadsBack(data, query, pton);
    OneQuestion(m.question);
  }

  lemma OneQuestion(qs: seq<Question>)
    requires |qs| == 1
    ensures qs == [qs[0]]
  {
  }

  lemma ReplyReadsBack(data: map<DN, seq<Record>>, query: seq<byte>, pton: Pton)
    requires ParseMessage(query).Some? && Respond(data, ParseMessage(query).value, pton).threw == None
    requires WireData(data) && ShortAddresses(pton) && CountsFit(Respond(data, ParseMessage(query).value, pton).m)
    ensures var reply := Respond(data, ParseMessage(query).value, pton).m;
      ReadMessage(MessageBytes(reply)) == Some(WireOf(reply))
  {
    ReplyOnWire(data, query, pton);
  }

  /** And these bytes are what the server answers. */
  lemma ZoneReaction(data: map<DN, seq<Record>>, query: seq<byte>, zone: DN, pton: Pton)
    requires ParseMessage(query).Some? && |ParseMessage(query).value.question| == 1 && Loaded(data)
    requires var q := ParseMessage(query).value.question[0];
      zone in data && zone != [] && zone <= q.domain && (forall z: DN | z in data && z <= q.domain :: |z| <= |zone|)
      && q.qtype in {1, 2, 5, 6, 15, 16, 28} && !NipShaped(q.domain, zone)
    ensures ReactionToBytes(data, ParseMessage(query), pton) ==
      Some(Bytes(MessageBytes(Respond(data, ParseMessage(query).value, pton).m)))
  {
    ParsedMessageIsWire(query);
    ZoneAnswer(data, ParseMessage(query).value, zone, pton);
  }

  lemma AllAddressesIn(file: seq<Record>, rrs: seq<Record>)
    requires WireRecords(file)
    ensures WireRecords(AllAddresses(file, rrs))
  {
    forall rr <- AllAddresses(file, rrs) ensures rr in file {
      AdditionalIsAddresses(file, rrs, rr);
    }
  }

  lemma WirePlus(rs: seq<Record>, vs: seq<Record>)
    requires WireRecords(rs) && WireRecords(vs)
    ensures WireRecords(rs + vs)
  {
  }

  ghost predicate WireSections(m: Message) {
    WireRecords(m.answer) && WireRecords(m.authority) && WireRecords(m.additional)
  }

  lemma LookupIsWire(zone: DN, file: seq<Record>, q: Question, pton: Pton)
    requires WireRecords(file) && WireName(q.domain) && ShortAddresses(pton)
    ensures Lookup(zone, file, q, pton).Found? ==> WireRecords(Lookup(zone, file, q, pton).records)
  {
    MatchingIsWire(file, KeyOfQuestion(q));
  }

  lemma MatchingIsWire(file: seq<Record>, key: Key)
    requires WireRecords(file)
    ensures WireRecords(Matching(file, key))
  {
    forall rr <- Matching(file, key) ensures rr in file {
      InMatching(file, key, rr);
    }
  }

  lemma AnswerIsWire(zone: DN, file: seq<Record>, q: Question, m: Message, pton: Pton)
    requires WireRecords(file) && WireName(q.domain) && ShortAddresses(pton) && WireSections(m)
    ensures WireSections(AnswerFrom(zone, file, q, m, pton).m)
  {
    LookupIsWire(zone, file, q, pton);
    MatchingIsWire(file, Key(zone, SOA, IN));
    MatchingIsWire(file, Key(zone, NS, IN));
    var ns := Matching(file, Key(zone, NS, IN));
    if Lookup(zone, file, q, pton).Found? {
      var rrs := Lookup(zone, file, q, pton).records;
      AllAddressesIn(file, rrs);
      WirePlus(m.answer, rrs);
      WirePlus(m.additional, AllAddresses(file, rrs));
      WirePlus(m.authority, ns);
    }
  }

  lemma ReplyIsWire(data: map<DN, seq<Record>>, m: Message, pton: Pton)
    requires WireData(data) && ShortAddresses(pton) && WireQuestions(m.question) && |m.question| == m.head.qd
    requires m.answer == m.authority == m.additional == []
    requires Outcome(Respond(data, m, pton)).Some? && CountsFit(Outcome(Respond(data, m, pton)).value)
    ensures WireMessage(Outcome(Respond(data, m, pton)).value)
  {
    ReplyKeeps(data, m, pton);
    if m.head.qd == 1 && Walk(data.Keys, m.question[0].domain).Some? {
      var zone := Walk(data.Keys, m.question[0].domain).value;
      WalkIsLongest(data.Keys, m.question[0].domain);
      assert m.question[0] in m.question;
      AnswerIsWire(zone, data[zone], m.question[0], Authoritative(m), pton);
    }
  }

  lemma ResponseFields(m: Message)
    ensures var h := Response(m);
      h.id == m.head.id && h.qr && h.z == 0 && h.opcode == m.head.opcode && h.rcode == m.head.rcode
      && h.aa == m.head.aa
      && h.qd == |m.question| % 0x1_0000
  {
  }

  lemma AnswerKeeps(zone: DN, file: seq<Record>, q: Question, m: Message, pton: Pton)
    ensures var r := AnswerFrom(zone, file, q, m, pton).m;
      r.question == m.question && r.head == m.head.(rcode := r.head.rcode)
  {
  }

  lemma OutcomeKeeps(r: Result)
    requires Outcome(r).Some?
    ensures Outcome(r).value == r.m.(head := r.m.head.(rcode := Outcome(r).value.head.rcode))
  {
  }

  /** No answer touches the questions, the id or the opcode. */
  lemma ReplyKeeps(data: map<DN, seq<Record>>, m: Message, pton: Pton)
    requires Outcome(Respond(data, m, pton)).Some?
    ensures var reply := Outcome(Respond(data, m, pton)).value;
      reply.question == m.question && reply.head.id == m.head.id && reply.head.opcode == m.head.opcode
  {
    RespondKeeps(data, m, pton);
    OutcomeKeeps(Respond(data, m, pton));
  }

  lemma RespondKeeps(data: map<DN, seq<Record>>, m: Message, pton: Pton)
    ensures var r := Respond(data, m, pton).m;
      r.question == m.question && r.head.id == m.head.id && r.head.opcode == m.head.opcode
  {
    if m.head.qd == 1 && |m.question| == 1 && Walk(data.Keys, m.question[0].domain).Some? {
      var zone := Walk(data.Keys, m.question[0].domain).value;
      WalkIsLongest(data.Keys, m.question[0].domain);
      AnswerKeeps(zone, data[zone], m.question[0], Authoritative(m), pton);
    }
  }

  lemma {:induction false} AddressesPlus(file: seq<Record>, rrs: seq<Record>, more: seq<Record>)
    ensures AllAddresses(file, rrs + more) == AllAddresses(file, rrs) + AllAddresses(file, more)
  {
    if more == [] {
      PlusEmpty(rrs);
      PlusEmpty(AllAddresses(file, rrs));
    } else {
      var front, last := more[..|more| - 1], more[|more| - 1];
      AddressesPlus(file, rrs, front);
      assert (rrs + more)[..|rrs + more| - 1] == rrs + front;
      Regroup(AllAddresses(file, rrs), AllAddresses(file, front), Addresses(file, last.datadn));
    }
  }

  /** The additional section in order: for each answer in turn the addresses of the name it points at,
      its A records (1) before its AAAA records (28). */
  lemma AdditionalInOrder(file: seq<Record>, rr: Record, more: seq<Record>)
    ensures AllAddresses(file, [rr] + more) ==
      Matching(file, Key(rr.datadn, 1, 1)) + Matching(file, Key(rr.datadn, 28, 1)) + AllAddresses(file, more)
  {
    AddressesPlus(file, [rr], more);
    AddressesOfOne(file, rr);
    AddressesAre(file, rr.datadn);
  }

  lemma AddressesSnoc(file: seq<Record>, rrs: seq<Record>, i: nat)
    requires i < |rrs|
    ensures rrs[..i + 1] == rrs[..i] + [rrs[i]]
    ensures AllAddresses(file, rrs[..i + 1]) == AllAddresses(file, rrs[..i]) + Addresses(file, rrs[i].datadn)
  {
    assert rrs[..i + 1][..i] == rrs[..i];
  }

  predicate IsAddress(r: Record) {
    (r.rtype == 1 || r.rtype == 28) && r.rclass == 1
  }

  lemma AddressesSnocIn(file: seq<Record>, front: seq<Record>, last: Record, rr: Record)
    ensures rr in AllAddresses(file, front + [last]) <==>
      rr in AllAddresses(file, front) || rr in Addresses(file, last.datadn)
  {
    assert (front + [last])[..|front|] == front;
  }

  /** The additional section: exactly the zone's addresses for the names that the answers point at. */
  lemma {:induction false} AdditionalIsAddresses(file: seq<Record>, rrs: seq<Record>, rr: Record)
    ensures rr in AllAddresses(file, rrs) <==> rr in file && IsAddress(rr) && PointedAt(rrs, rr.domain)
  {
    if rrs != [] {
      var front, last := rrs[..|rrs| - 1], rrs[|rrs| - 1];
      AdditionalIsAddresses(file, front, rr);
      AddressesSnocIn(file, front, last, rr);
      AddressesOfName(file, last.datadn, rr);
      PointedAtSnoc(front, last, rr.domain);
      assert rrs == front + [last];
    }
  }

  /** One of the records points at the name. */
  predicate PointedAt(rrs: seq<Record>, dn: DN) {
    exists a <- rrs :: a.datadn == dn
  }

  lemma PointedAtSnoc(rrs: seq<Record>, last: Record, dn: DN)
    ensures PointedAt(rrs + [last], dn) <==> PointedAt(rrs, dn) || last.datadn == dn
  {
    if PointedAt(rrs, dn) {
      var a :| a in rrs && a.datadn == dn;
      assert a in rrs + [last];
    } else if last.datadn == dn {
      assert last in rrs + [last];
    }
  }

  lemma AddressesOfName(file: seq<Record>, dn: DN, rr: Record)
    ensures rr in Addresses(file, dn) <==>
      rr in file && IsAddress(rr) && rr.domain == dn
  {
    InMatching(file, Key(dn, A, IN), rr);
    InMatching(file, Key(dn, AAAA, IN), rr);
  }

  // ---------- The server object ----------

  datatype Reaction = Bytes(data: seq<byte>) | Forwarded

  function ReactionTo(data: map<DN, seq<Record>>, m: Message, pton: Pton): Reaction {
    match Outcome(Respond(data, m, pton))
    case None => Forwarded
    case Some(reply) => Bytes(MessageBytes(reply))
  }

  function ReactionToBytes(data: map<DN, seq<Record>>, parsed: Option<Message>, pton: Pton): Option<Reaction> {
    match parsed
    case None => None
    case Some(m) => Some(ReactionTo(data, m, pton))
  }

  /** c_str(): the bytes of a string and the NUL behind them, all of which may be read. */
  function CStr(s: seq<byte>): seq<byte> {
    s + [0]
  }

  /** The NUL completes a query that stops one byte early, and changes no complete one. */
  lemma CStrOfQuery(qs: seq<byte>)
    requires ParseMessage(qs).Some?
    ensures ParseMessage(CStr(qs)) == ParseMessage(qs)
  {
    ParseMessageExtends(qs, [0]);
  }

  /** A query whose last byte is a zero may as well be sent without it. */
  lemma NulCompletes(query: seq<byte>)
    requires query != [] && query[|query| - 1] == 0
    ensures ParseMessage(CStr(query[..|query| - 1])) == ParseMessage(query)
  {
    assert CStr(query[..|query| - 1]) == query;
  }

  method ParseNew(qs: seq<byte>) returns (ok: bool, h: Header)
    ensures fresh(h) && ParseMessage(qs) == if ok then Some(h.Value()) else None
    ensures ok ==> |h.question| == h.head.qd
  {
    h := new Header();
    ok := h.Parse(qs);
    if ok {
      ParsedMessageIsWire(qs);
    }
  }

  class Server {
    const zones: map<DN, Zone>

    ghost predicate Valid()
      reads this, zones.Values
    {
      forall dn <- zones.Keys ::
        zones[dn] in zones.Values && zones[dn].Valid() && zones[dn].HasSoa() && zones[dn].domain == dn
    }

    /** data are the files of the configured zones. */
    ghost predicate Serves(data: map<DN, seq<Record>>)
      reads this, zones.Values
    {
      && Valid() && data.Keys == zones.Keys
      && forall dn <- zones.Keys :: zones[dn] in zones.Values && data[dn] == zones[dn].file
    }

    constructor (zones: map<DN, Zone>)
      requires forall dn <- zones.Keys :: zones[dn].Valid() && zones[dn].HasSoa() && zones[dn].domain == dn
      ensures Valid() && this.zones == zones
    {
      this.zones := zones;
    }

    /** The walk: dn loses its most specific label until it is a configured zone. */
    method FindZone(domain: DN) returns (zone: Option<Zone>)
      ensures match Walk(zones.Keys, domain)
        case None => zone == None
        case Some(dn) => dn in zones.Keys && zone == Some(zones[dn])
    {
      var dn := domain;
      while dn != []
        invariant Walk(zones.Keys, domain) == Walk(zones.Keys, dn)
        decreases |dn|
      {
        if dn in zones.Keys {
          return Some(zones[dn]);
        }
        dn := dn[..|dn| - 1];
      }
      return None;
    }

    /** Server::query(Header). threw is None when the header is ready to be dumped. */
    method Query(h: Header, pton: Pton, ghost data: map<DN, seq<Record>>) returns (threw: Option<Error>)
      requires Serves(data) && |h.question| == h.head.qd
      modifies h
      ensures Result(threw, h.Value()) == Respond(data, old(h.Value()), pton)
    {
      if h.head.qd != 1 {
        return Some(NoImplementation);
      }
      var q := h.question[0];
      var found := FindZone(q.domain);
      WalkIsLongest(zones.Keys, q.domain);
      if found.None? {
        return Some(Forward);
      }
      var zone := found.value;
      MarkAuthoritative(h);
      threw := AnswerInto(h, zone, q, pton);
    }

    method MarkAuthoritative(h: Header)
      modifies h
      ensures h.Value() == Authoritative(old(h.Value()))
    {
      h.head := h.head.(aa := true);
      h.head := h.head.(rd := true);
      h.head := h.head.(ra := false);
      h.head := h.head.(rcode := 0);
    }

    /** The body of query once the zone is known. */
    method AnswerInto(h: Header, zone: Zone, q: Question, pton: Pton) returns (threw: Option<Error>)
      requires zone.Valid() && zone.HasSoa()
      modifies h
      ensures Result(threw, h.Value()) == AnswerFrom(zone.domain, zone.file, q, old(h.Value()), pton)
    {
      var got := zone.Get(q, pton);
      match got {
        case ServerFailure => return Some(Failure);
        case FormatError => return Some(BadFormat);
        case NotImplemented => return Some(NoImplementation);
        case NameError =>
          NameErrorInto(h, zone);
          return None;
        case Found(rrs) =>
          AddRecords(h, zone, rrs);
          if q.qtype != NS {
            var ns := zone.GetOwn(NS);
            if ns.None? {
              NameErrorInto(h, zone);
            } else {
              h.authority := h.authority + ns.value;
            }
          }
          return None;
      }
    }

    /** The handler of NAME_ERROR. */
    method NameErrorInto(h: Header, zone: Zone)
      requires zone.Valid() && zone.HasSoa()
      modifies h
      ensures h.Value() == NameErrorReply(zone.domain, zone.file, old(h.Value()))
    {
      h.head := h.head.(rcode := 3);
      var soa := zone.GetOwn(SOA);
      h.authority := soa.value;
    }

    /** The loop over the records found. */
    method AddRecords(h: Header, zone: Zone, rrs: seq<Record>)
      requires zone.Valid()
      modifies h
      ensures h.Value() == old(h.Value()).(answer := old(h.answer) + rrs,
                additional := old(h.additional) + AllAddresses(zone.file, rrs))
    {
      ghost var file, answer, additional := zone.file, h.answer, h.additional;
      PlusEmpty(answer);
      PlusEmpty(additional);
      for i := 0 to |rrs|
        invariant h.head == old(h.head) && h.question == old(h.question) && h.authority == old(h.authority)
        invariant h.answer == answer + rrs[..i]
        invariant h.additional == additional + AllAddresses(file, rrs[..i])
      {
        h.answer := h.answer + [rrs[i]];
        var ips := zone.GetIP(rrs[i].datadn);
        h.additional := h.additional + ips;
        AddressesSnoc(file, rrs, i);
        Regroup(answer, rrs[..i], [rrs[i]]);
        Regroup(additional, AllAddresses(file, rrs[..i]), ips);
      }
      assert rrs[..|rrs|] == rrs;
    }

    /** Server::query(string): parse, query, and turn what was thrown into a response code. None is
        where the original would read past the query's terminating NUL. */
    method QueryBytes(qs: seq<byte>, pton: Pton, ghost data: map<DN, seq<Record>>) returns (r: Option<Reaction>)
      requires Serves(data)
      ensures r == ReactionToBytes(data, ParseMessage(CStr(qs)), pton)
    {
      var ok, h := ParseNew(CStr(qs));
      if !ok {
        return None;
      }
      var reaction := Answer(h, pton, data);
      r := Some(reaction);
    }

    /** What follows the parsing. */
    method Answer(h: Header, pton: Pton, ghost data: map<DN, seq<Record>>) returns (r: Reaction)
      requires Serves(data) && |h.question| == h.head.qd
      modifies h
      ensures r == ReactionTo(data, old(h.Value()), pton)
    {
      var threw := Query(h, pton, data);
      r := Catch(h, threw);
    }

    /** The catch clauses and the final dump. */
    method Catch(h: Header, threw: Option<Error>) returns (r: Reaction)
      modifies h
      ensures match Outcome(Result(threw, old(h.Value())))
        case None => r == Forwarded
        case Some(m) => r == Bytes(MessageBytes(m))
    {
      match threw {
        case Some(Forward) => return Forwarded;
        case Some(BadFormat) => h.head := h.head.(rcode := 1);
        case Some(NoImplementation) => h.head := h.head.(rcode := 4);
        case Some(Failure) => h.head := h.head.(rcode := 2);
        case None =>
      }
      var data := h.Dump();
      r := Bytes(data);
    }
  }
}
