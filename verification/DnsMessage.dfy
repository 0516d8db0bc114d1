/** DNS messages (section 4.1 of RFC 1035): the header object, its dump and its parser. */
module DnsMessage {
  import opened Bytes
  import opened Bits
  import opened DnsNames

  type nibble = x: int | 0 <= x < 16
  type octal = x: int | 0 <= x < 8

  datatype Question = Question(domain: DN, qtype: uint16, qclass: uint16)

  /** A resource record: text is its data as the zone file gives it, rdata its wire form, and datadn
      the name that the data points at, if it does. */
  datatype Record = Record(domain: DN, rtype: uint16, rclass: uint16, ttl: uint32, text: seq<byte>,
                           rdata: seq<byte>, datadn: DN)

  datatype Head = Head(id: uint16, qr: bool, opcode: nibble, aa: bool, tc: bool, rd: bool, ra: bool, z: octal,
                       rcode: nibble, qd: uint16, an: uint16, ns: uint16, ar: uint16)

  datatype Message = Message(head: Head, question: seq<Question>, answer: seq<Record>, authority: seq<Record>,
                             additional: seq<Record>)

  const MSG_SIZE: nat := 12

  // ---------- Header ----------

  function Bit(b: bool): (v: nat)
    ensures v < 2
  {
    if b then 1 else 0
  }

  /** The bit fields of the first flag byte, lowest bit first: RD, TC, AA, Opcode, QR. */
  function Flags1(h: Head): byte {
    Bit(h.rd) + 2 * Bit(h.tc) + 4 * Bit(h.aa) + 8 * h.opcode as int + 128 * Bit(h.qr)
  }

  /** The second flag byte: RCODE, Z, RA. */
  function Flags2(h: Head): byte {
    h.rcode as int + 16 * h.z as int + 128 * Bit(h.ra)
  }

  function HeadBytes(h: Head): (b: seq<byte>)
    ensures |b| == MSG_SIZE
  {
    BE16(h.id) + [Flags1(h), Flags2(h)] + BE16(h.qd) + BE16(h.an) + BE16(h.ns) + BE16(h.ar)
  }

  /** The header's twelve bytes (section 4.1.1 of RFC 1035). */
  lemma HeadLayout(h: Head)
    ensures HeadBytes(h) ==
      [h.id / 256, h.id % 256,
       (if h.qr then 128 else 0) + 8 * h.opcode as int + (if h.aa then 4 else 0) + (if h.tc then 2 else 0)
         + (if h.rd then 1 else 0),
       (if h.ra then 128 else 0) + 16 * h.z as int + h.rcode as int,
       h.qd / 256, h.qd % 256, h.an / 256, h.an % 256, h.ns / 256, h.ns % 256, h.ar / 256, h.ar % 256]
  {
  }

  function ParseHead(b: seq<byte>): Head
    requires |b| == MSG_SIZE
  {
    var f1, f2 := b[2], b[3];
    Head(FromBE16(b[0..2]), f1 / 128 == 1, f1 / 8 % 16, f1 / 4 % 2 == 1, f1 / 2 % 2 == 1, f1 % 2 == 1,
         f2 / 128 == 1, f2 / 16 % 8, f2 % 16,
         FromBE16(b[4..6]), FromBE16(b[6..8]), FromBE16(b[8..10]), FromBE16(b[10..12]))
  }

  lemma Flags1Parts(rd: nat, tc: nat, aa: nat, opcode: nat, qr: nat)
    requires rd < 2 && tc < 2 && aa < 2 && opcode < 16 && qr < 2
    ensures var f := rd + 2 * tc + 4 * aa + 8 * opcode + 128 * qr;
      f % 2 == rd && f / 2 % 2 == tc && f / 4 % 2 == aa && f / 8 % 16 == opcode && f / 128 == qr
  {
    var f := rd + 2 * tc + 4 * aa + 8 * opcode + 128 * qr;
    var f2, f4, f8 := tc + 2 * aa + 4 * opcode + 64 * qr, aa + 2 * opcode + 32 * qr, opcode + 16 * qr;
    DivUnique(f, 2, f2, rd);
    DivUnique(f2, 2, f4, tc);
    DivUnique(f, 4, f4, rd + 2 * tc);
    DivUnique(f4, 2, f8, aa);
    DivUnique(f, 8, f8, rd + 2 * tc + 4 * aa);
    DivUnique(f8, 16, qr, opcode);
    DivUnique(f, 128, qr, f - 128 * qr);
  }

  lemma Flags2Parts(rcode: nat, z: nat, ra: nat)
    requires rcode < 16 && z < 8 && ra < 2
    ensures var f := rcode + 16 * z + 128 * ra; f % 16 == rcode && f / 16 % 8 == z && f / 128 == ra
  {
    var f := rcode + 16 * z + 128 * ra;
    DivUnique(f, 16, z + 8 * ra, rcode);
    DivUnique(z + 8 * ra, 8, ra, z);
    DivUnique(f, 128, ra, rcode + 16 * z);
  }

  /** Six two-byte fields one after the other, each where it is looked for. */
  lemma SixPairs(a: seq<byte>, b: seq<byte>, c: seq<byte>, d: seq<byte>, e: seq<byte>, f: seq<byte>)
    requires |a| == |b| == |c| == |d| == |e| == |f| == 2
    ensures var t := a + b + c + d + e + f;
      t[0..2] == a && t[2..4] == b && t[4..6] == c && t[6..8] == d && t[8..10] == e && t[10..12] == f
  {
  }

  lemma FlagsRoundTrip(h: Head)
    ensures var f1, f2: int := Flags1(h), Flags2(h);
      && f1 / 128 == Bit(h.qr) && f1 / 8 % 16 == h.opcode && f1 / 4 % 2 == Bit(h.aa)
      && f1 / 2 % 2 == Bit(h.tc) && f1 % 2 == Bit(h.rd)
      && f2 / 128 == Bit(h.ra) && f2 / 16 % 8 == h.z && f2 % 16 == h.rcode
  {
    Flags1Parts(Bit(h.rd), Bit(h.tc), Bit(h.aa), h.opcode, Bit(h.qr));
    Flags2Parts(h.rcode, h.z, Bit(h.ra));
  }

  lemma HeadRoundTrip(h: Head)
    ensures ParseHead(HeadBytes(h)) == h
  {
    var b, flags := HeadBytes(h), [Flags1(h), Flags2(h)];
    SixPairs(BE16(h.id), flags, BE16(h.qd), BE16(h.an), BE16(h.ns), BE16(h.ar));
    assert b[2] == b[2..4][0] && b[3] == b[2..4][1];
    FlagsRoundTrip(h);
    FromBE16ofBE16(h.id);
    FromBE16ofBE16(h.qd);
    FromBE16ofBE16(h.an);
    FromBE16ofBE16(h.ns);
    FromBE16ofBE16(h.ar);
  }

  // ---------- Questions ----------

  function QuestionBytes(q: Question): seq<byte> {
    Encoded(q.domain) + BE16(q.qtype) + BE16(q.qclass)
  }

  /** A question's bytes (section 4.1.2 of RFC 1035). */
  lemma QuestionLayout(q: Question)
    ensures QuestionBytes(q) ==
      Encoded(q.domain) + [q.qtype / 256, q.qtype % 256, q.qclass / 256, q.qclass % 256]
  {
  }

  function QuestionsBytes(qs: seq<Question>): seq<byte> {
    if qs == [] then [] else QuestionBytes(qs[0]) + QuestionsBytes(qs[1..])
  }

  predicate WireName(d: DN) {
    forall i | 0 <= i < |d| :: WireLabel(d[i])
  }

  predicate WireQuestions(qs: seq<Question>) {
    forall q <- qs :: WireName(q.domain)
  }

  function ParseQuestion(b: seq<byte>): (r: Option<(Question, seq<byte>)>)
    ensures r.Some? ==> |r.value.1| < |b|
  {
    match ParseName(b)
    case None => None
    case Some((ls, rest)) =>
      if |rest| < 4 then None
      else Some((Question(Reverse(ls), FromBE16(rest[..2]), FromBE16(rest[2..4])), rest[4..]))
  }

  function ParseQuestions(b: seq<byte>, n: nat): Option<(seq<Question>, seq<byte>)>
    decreases n
  {
    if n == 0 then Some(([], b)) else
    match ParseQuestion(b)
    case None => None
    case Some((q, rest)) => QPrefixed([q], ParseQuestions(rest, n - 1))
  }

  function QPrefixed(qs: seq<Question>, r: Option<(seq<Question>, seq<byte>)>): Option<(seq<Question>, seq<byte>)> {
    match r
    case None => None
    case Some((more, rest)) => Some((qs + more, rest))
  }

  lemma QPrefixedNothing(r: Option<(seq<Question>, seq<byte>)>)
    ensures QPrefixed([], r) == r
  {
    if r.Some? {
      EmptyPlus(r.value.0);
    }
  }

  lemma QPrefixedTwice(qs: seq<Question>, q: Question, r: Option<(seq<Question>, seq<byte>)>)
    ensures QPrefixed(qs, QPrefixed([q], r)) == QPrefixed(qs + [q], r)
  {
    if r.Some? {
      assert qs + ([q] + r.value.0) == (qs + [q]) + r.value.0;
    }
  }

  lemma ReverseWire(d: DN)
    requires WireName(d)
    ensures forall l <- Reverse(d) :: WireLabel(l)
  {
  }

  lemma NameRoundTrip(d: DN, rest: seq<byte>)
    requires WireName(d)
    ensures ParseName(Encoded(d) + rest) == Some((Reverse(d), rest))
    ensures Reverse(Reverse(d)) == d
  {
    ReverseWire(d);
    ParseOfName(Reverse(d), rest);
    ReverseTwice(d);
  }

  lemma TwoFields(x: uint16, y: uint16, rest: seq<byte>)
    ensures var t := BE16(x) + BE16(y) + rest;
      |t| >= 4 && FromBE16(t[..2]) == x && FromBE16(t[2..4]) == y && t[4..] == rest
  {
    var t := BE16(x) + BE16(y) + rest;
    assert t[..2] == BE16(x) && t[2..4] == BE16(y);
  }

  lemma QuestionRoundTrip(q: Question, rest: seq<byte>)
    requires WireName(q.domain)
    ensures ParseQuestion(QuestionBytes(q) + rest) == Some((q, rest))
  {
    var tail := BE16(q.qtype) + BE16(q.qclass) + rest;
    assert QuestionBytes(q) + rest == Encoded(q.domain) + tail;
    TwoFields(q.qtype, q.qclass, rest);
    NameRoundTrip(q.domain, tail);
  }

  lemma FirstQuestion(b: seq<byte>, n: nat, q: Question, more: seq<byte>)
    requires ParseQuestion(b) == Some((q, more))
    ensures ParseQuestions(b, n + 1) == QPrefixed([q], ParseQuestions(more, n))
  {
  }

  lemma {:induction false} QuestionsRoundTrip(qs: seq<Question>, rest: seq<byte>)
    requires WireQuestions(qs)
    ensures ParseQuestions(QuestionsBytes(qs) + rest, |qs|) == Some((qs, rest))
  {
    if qs == [] {
      assert QuestionsBytes(qs) + rest == rest;
    } else {
      var b, more := QuestionsBytes(qs) + rest, QuestionsBytes(qs[1..]) + rest;
      Regroup(QuestionBytes(qs[0]), QuestionsBytes(qs[1..]), rest);
      assert qs[0] in qs;
      QuestionRoundTrip(qs[0], more);
      QuestionsRoundTrip(qs[1..], rest);
      FirstQuestion(b, |qs| - 1, qs[0], more);
      assert [qs[0]] + qs[1..] == qs;
    }
  }

  lemma ParsedQuestionIsWire(b: seq<byte>)
    requires ParseQuestion(b).Some?
    ensures WireName(ParseQuestion(b).value.0.domain)
  {
    NameOfParse(b);
    var (ls, rest) := ParseName(b).value;
    assert forall i | 0 <= i < |ls| :: ls[i] in ls;
  }

  lemma {:induction false} ParsedQuestionsAreWire(b: seq<byte>, n: nat)
    requires ParseQuestions(b, n).Some?
    ensures WireQuestions(ParseQuestions(b, n).value.0) && |ParseQuestions(b, n).value.0| == n
    decreases n
  {
    if n > 0 {
      ParsedQuestionIsWire(b);
      ParsedQuestionsAreWire(ParseQuestion(b).value.1, n - 1);
    }
  }

  // ---------- Records ----------

  function RecordBytes(r: Record): seq<byte> {
    Encoded(r.domain) + BE16(r.rtype) + BE16(r.rclass) + BE32(r.ttl) + BE16(|r.rdata| % 0x1_0000) + r.rdata
  }

  /** A record's bytes (section 4.1.3 of RFC 1035): behind the name ten bytes with type, class, time to
      live and length, and the data. */
  lemma RecordLayout(r: Record)
    requires |r.rdata| < 0x1_0000
    ensures var n, b := |Encoded(r.domain)|, RecordBytes(r);
      && b[..n] == Encoded(r.domain)
      && |b| == n + 10 + |r.rdata|
      && b[n..n + 4] == [r.rtype / 256, r.rtype % 256, r.rclass / 256, r.rclass % 256]
      && r.ttl == 0x100_0000 * b[n + 4] as int + 0x1_0000 * b[n + 5] as int + 0x100 * b[n + 6] as int + b[n + 7]
      && b[n + 8..n + 10] == [|r.rdata| / 256, |r.rdata| % 256]
      && b[n + 10..] == r.rdata
  {
    var n, b := |Encoded(r.domain)|, RecordBytes(r);
    BE32Bytes(r.ttl);
    assert b[n + 4..n + 8] == BE32(r.ttl);
    assert b[n + 4] == b[n + 4..n + 8][0] && b[n + 5] == b[n + 4..n + 8][1];
    assert b[n + 6] == b[n + 4..n + 8][2] && b[n + 7] == b[n + 4..n + 8][3];
  }

  function RecordsBytes(rs: seq<Record>): seq<byte> {
    if rs == [] then [] else RecordBytes(rs[0]) + RecordsBytes(rs[1..])
  }

  /** What of a record is on the wire. */
  datatype WireRecord = WireRecord(domain: DN, rtype: uint16, rclass: uint16, ttl: uint32, rdata: seq<byte>)

  function OnWire(r: Record): WireRecord {
    WireRecord(r.domain, r.rtype, r.rclass, r.ttl, r.rdata)
  }

  function AllOnWire(rs: seq<Record>): seq<WireRecord> {
    if rs == [] then [] else [OnWire(rs[0])] + AllOnWire(rs[1..])
  }

  predicate WireRecords(rs: seq<Record>) {
    forall r <- rs :: WireName(r.domain) && |r.rdata| < 0x1_0000
  }

  /** A reader of records (section 4.1.3 of RFC 1035), which the program's parser leaves out. */
  function ParseRecord(b: seq<byte>): Option<(WireRecord, seq<byte>)> {
    match ParseName(b)
    case None => None
    case Some((ls, rest)) =>
      if |rest| < 10 then None else
      var size := FromBE16(rest[8..10]);
      if |rest| < 10 + size as int then None
      else Some((WireRecord(Reverse(ls), FromBE16(rest[..2]), FromBE16(rest[2..4]), FromBE32(rest[4..8]),
                            rest[10..10 + size as int]), rest[10 + size as int..]))
  }

  function ParseRecords(b: seq<byte>, n: nat): Option<(seq<WireRecord>, seq<byte>)>
    decreases n
  {
    if n == 0 then Some(([], b)) else
    match ParseRecord(b)
    case None => None
    case Some((r, rest)) =>
      match ParseRecords(rest, n - 1)
      case None => None
      case Some((rs, rest2)) => Some(([r] + rs, rest2))
  }

  lemma FixedFields(r: Record, rest: seq<byte>)
    requires |r.rdata| < 0x1_0000
    ensures var t := BE16(r.rtype) + BE16(r.rclass) + BE32(r.ttl) + BE16(|r.rdata| % 0x1_0000) + r.rdata + rest;
      && |t| >= 10 + |r.rdata|
      && FromBE16(t[..2]) == r.rtype && FromBE16(t[2..4]) == r.rclass && FromBE32(t[4..8]) == r.ttl
      && FromBE16(t[8..10]) == |r.rdata| && t[10..10 + |r.rdata|] == r.rdata && t[10 + |r.rdata|..] == rest
  {
    var t := BE16(r.rtype) + BE16(r.rclass) + BE32(r.ttl) + BE16(|r.rdata| % 0x1_0000) + r.rdata + rest;
    FromBE32ofBE32(r.ttl);
    assert t[..2] == BE16(r.rtype) && t[2..4] == BE16(r.rclass) && t[4..8] == BE32(r.ttl);
    assert t[8..10] == BE16(|r.rdata|);
  }

  lemma RecordAfterName(b: seq<byte>, r: Record, t: seq<byte>, rest: seq<byte>)
    requires ParseName(b) == Some((Reverse(r.domain), t)) && Reverse(Reverse(r.domain)) == r.domain
    requires |r.rdata| < 0x1_0000 && |t| >= 10 + |r.rdata|
    requires FromBE16(t[..2]) == r.rtype && FromBE16(t[2..4]) == r.rclass && FromBE32(t[4..8]) == r.ttl
    requires FromBE16(t[8..10]) == |r.rdata| && t[10..10 + |r.rdata|] == r.rdata && t[10 + |r.rdata|..] == rest
    ensures ParseRecord(b) == Some((OnWire(r), rest))
  {
  }

  lemma RecordRoundTrip(r: Record, rest: seq<byte>)
    requires WireName(r.domain) && |r.rdata| < 0x1_0000
    ensures ParseRecord(RecordBytes(r) + rest) == Some((OnWire(r), rest))
  {
    var b := RecordBytes(r) + rest;
    var tail := BE16(r.rtype) + BE16(r.rclass) + BE32(r.ttl) + BE16(|r.rdata| % 0x1_0000) + r.rdata + rest;
    assert b == Encoded(r.domain) + tail;
    FixedFields(r, rest);
    NameRoundTrip(r.domain, tail);
    RecordAfterName(b, r, tail, rest);
  }

  lemma FirstRecord(b: seq<byte>, n: nat, r: WireRecord, more: seq<byte>, rs: seq<WireRecord>, rest: seq<byte>)
    requires ParseRecord(b) == Some((r, more)) && ParseRecords(more, n) == Some((rs, rest))
    ensures ParseRecords(b, n + 1) == Some(([r] + rs, rest))
  {
  }

  lemma {:induction false} RecordsRoundTrip(rs: seq<Record>, rest: seq<byte>)
    requires WireRecords(rs)
    ensures ParseRecords(RecordsBytes(rs) + rest, |rs|) == Some((AllOnWire(rs), rest))
  {
    if rs == [] {
      assert RecordsBytes(rs) + rest == rest;
    } else {
      var b, more := RecordsBytes(rs) + rest, RecordsBytes(rs[1..]) + rest;
      Regroup(RecordBytes(rs[0]), RecordsBytes(rs[1..]), rest);
      assert rs[0] in rs;
      RecordRoundTrip(rs[0], more);
      RecordsRoundTrip(rs[1..], rest);
      FirstRecord(b, |rs| - 1, OnWire(rs[0]), more, AllOnWire(rs[1..]), rest);
    }
  }

  /** Unique decodability: equally long record lists with the same bytes agree on every name, type,
      class, time to live and data. */
  lemma RecordsDecodeUniquely(rs: seq<Record>, vs: seq<Record>)
    requires WireRecords(rs) && WireRecords(vs) && |rs| == |vs|
    requires RecordsBytes(rs) == RecordsBytes(vs)
    ensures AllOnWire(rs) == AllOnWire(vs)
  {
    RecordsRoundTrip(rs, []);
    RecordsRoundTrip(vs, []);
    assert RecordsBytes(rs) + [] == RecordsBytes(vs) + [];
  }

  // ---------- Messages ----------

  /** What dump makes of the header fields: a response, Z clear, and the counts of the sections,
      narrowed to 16 bits. */
  function Response(m: Message): Head {
    m.head.(qr := true, z := 0, qd := |m.question| % 0x1_0000, an := |m.answer| % 0x1_0000,
            ns := |m.authority| % 0x1_0000, ar := |m.additional| % 0x1_0000)
  }

  function SectionsBytes(m: Message): seq<byte> {
    RecordsBytes(m.answer) + (RecordsBytes(m.authority) + RecordsBytes(m.additional))
  }

  function MessageBytes(m: Message): seq<byte> {
    HeadBytes(Response(m)) + (QuestionsBytes(m.question) + SectionsBytes(m))
  }

  /** What parse yields: the header and the questions; the records are not read. None where the
      original would read past its buffer. */
  function ParseMessage(b: seq<byte>): Option<Message> {
    if |b| < MSG_SIZE then None else
    var head := ParseHead(b[..MSG_SIZE]);
    match ParseQuestions(b[MSG_SIZE..], head.qd)
    case None => None
    case Some((qs, _)) => Some(Message(head, qs, [], [], []))
  }

  lemma ParsedMessageIsWire(b: seq<byte>)
    requires ParseMessage(b).Some?
    ensures var m := ParseMessage(b).value; WireQuestions(m.question) && |m.question| == m.head.qd < 0x1_0000
  {
    ParsedQuestionsAreWire(b[MSG_SIZE..], ParseHead(b[..MSG_SIZE]).qd);
  }

  lemma ParseNameExtends(b: seq<byte>, x: seq<byte>)
    requires ParseName(b).Some?
    ensures ParseName(b + x) == Some((ParseName(b).value.0, ParseName(b).value.1 + x))
  {
    var (ls, rest) := ParseName(b).value;
    NameOfParse(b);
    Regroup(NameBytes(ls), rest, x);
    ParseOfName(ls, rest + x);
  }

  lemma ParseQuestionExtends(b: seq<byte>, x: seq<byte>)
    requires ParseQuestion(b).Some?
    ensures ParseQuestion(b + x) == Some((ParseQuestion(b).value.0, ParseQuestion(b).value.1 + x))
  {
    ParseNameExtends(b, x);
    var rest := ParseName(b).value.1;
    assert (rest + x)[..2] == rest[..2] && (rest + x)[2..4] == rest[2..4] && (rest + x)[4..] == rest[4..] + x;
  }

  lemma {:induction false} ParseQuestionsExtend(b: seq<byte>, n: nat, x: seq<byte>)
    requires ParseQuestions(b, n).Some?
    ensures ParseQuestions(b + x, n) == Some((ParseQuestions(b, n).value.0, ParseQuestions(b, n).value.1 + x))
    decreases n
  {
    if n > 0 {
      var (q, rest) := ParseQuestion(b).value;
      ParseQuestionExtends(b, x);
      ParseQuestionsExtend(rest, n - 1, x);
      FirstQuestion(b, n - 1, q, rest);
      FirstQuestion(b + x, n - 1, q, rest + x);
    }
  }

  /** Bytes behind a complete message change nothing. */
  lemma ParseMessageExtends(b: seq<byte>, x: seq<byte>)
    requires ParseMessage(b).Some?
    ensures ParseMessage(b + x) == ParseMessage(b)
  {
    assert (b + x)[..MSG_SIZE] == b[..MSG_SIZE] && (b + x)[MSG_SIZE..] == b[MSG_SIZE..] + x;
    ParseQuestionsExtend(b[MSG_SIZE..], ParseHead(b[..MSG_SIZE]).qd, x);
  }

  /** A reader of whole messages, section by section, which the program's parser leaves out. */
  datatype Wire = Wire(head: Head, question: seq<Question>, answer: seq<WireRecord>, authority: seq<WireRecord>,
                       additional: seq<WireRecord>)

  function ReadMessage(b: seq<byte>): Option<Wire> {
    if |b| < MSG_SIZE then None else
    var head := ParseHead(b[..MSG_SIZE]);
    match ParseQuestions(b[MSG_SIZE..], head.qd)
    case None => None
    case Some((qs, rest)) => ReadSections(head, qs, rest)
  }

  function ReadSections(head: Head, qs: seq<Question>, b: seq<byte>): Option<Wire> {
    match ParseRecords(b, head.an)
    case None => None
    case Some((an, more)) =>
      match ParseRecords(more, head.ns)
      case None => None
      case Some((ns, last)) =>
        match ParseRecords(last, head.ar)
        case None => None
        case Some((ar, rest)) => if rest == [] then Some(Wire(head, qs, an, ns, ar)) else None
  }

  function WireOf(m: Message): Wire {
    Wire(Response(m), m.question, AllOnWire(m.answer), AllOnWire(m.authority), AllOnWire(m.additional))
  }

  lemma MessageParts(m: Message)
    ensures var b := MessageBytes(m);
      |b| >= MSG_SIZE && b[..MSG_SIZE] == HeadBytes(Response(m)) &&
      b[MSG_SIZE..] == QuestionsBytes(m.question) + SectionsBytes(m)
  {
  }

  lemma Narrowed16(n: nat)
    ensures n % 0x1_0000 == n <==> n < 0x1_0000
  {
  }

  lemma QuestionsBackIff(qs: seq<Question>, rest: seq<byte>, n: nat)
    requires n == |qs| <==> |qs| < 0x1_0000
    ensures var r := ParseQuestions(QuestionsBytes(qs) + rest, n);
      (r.Some? && r.value.0 == qs) <==> WireQuestions(qs) && |qs| < 0x1_0000
  {
    if WireQuestions(qs) && |qs| < 0x1_0000 {
      QuestionsRoundTrip(qs, rest);
    } else if ParseQuestions(QuestionsBytes(qs) + rest, n).Some? {
      ParsedQuestionsAreWire(QuestionsBytes(qs) + rest, n);
    }
  }

  /** Message round trip: parsing a dump gives back every header field with QR set, Z clear and the
      counts of the sections, and the questions come back exactly when every label has 1 to 255
      bytes and there are at most 65535 of them. */
  lemma MessageRoundTrip(m: Message)
    ensures ParseMessage(MessageBytes(m)).Some? ==> ParseMessage(MessageBytes(m)).value.head == Response(m)
    ensures var h := Response(m);
      && h.id == m.head.id && h.opcode == m.head.opcode && h.rcode == m.head.rcode
      && h.aa == m.head.aa && h.tc == m.head.tc && h.rd == m.head.rd && h.ra == m.head.ra
      && h.qr && h.z == 0 && h.qd == |m.question| % 0x1_0000 && h.an == |m.answer| % 0x1_0000
      && h.ns == |m.authority| % 0x1_0000 && h.ar == |m.additional| % 0x1_0000
    ensures ParseMessage(MessageBytes(m)) == Some(Message(Response(m), m.question, [], [], [])) <==>
      WireQuestions(m.question) && |m.question| < 0x1_0000
  {
    MessageParts(m);
    HeadRoundTrip(Response(m));
    Narrowed16(|m.question|);
    QuestionsBackIff(m.question, SectionsBytes(m), Response(m).qd);
  }

  ghost predicate WireMessage(m: Message) {
    && WireQuestions(m.question) && WireRecords(m.answer) && WireRecords(m.authority) && WireRecords(m.additional)
    && |m.question| < 0x1_0000 && |m.answer| < 0x1_0000 && |m.authority| < 0x1_0000 && |m.additional| < 0x1_0000
  }

  lemma ThreeSections(head: Head, qs: seq<Question>, b: seq<byte>, an: seq<WireRecord>, more: seq<byte>,
                      ns: seq<WireRecord>, last: seq<byte>, ar: seq<WireRecord>)
    requires ParseRecords(b, head.an) == Some((an, more)) && ParseRecords(more, head.ns) == Some((ns, last))
    requires ParseRecords(last, head.ar) == Some((ar, []))
    ensures ReadSections(head, qs, b) == Some(Wire(head, qs, an, ns, ar))
  {
  }

  lemma SectionsReadBack(head: Head, m: Message)
    requires WireRecords(m.answer) && WireRecords(m.authority) && WireRecords(m.additional)
    requires head.an == |m.answer| && head.ns == |m.authority| && head.ar == |m.additional|
    ensures ReadSections(head, m.question, SectionsBytes(m)) ==
      Some(Wire(head, m.question, AllOnWire(m.answer), AllOnWire(m.authority), AllOnWire(m.additional)))
  {
    var ns, ar := RecordsBytes(m.authority), RecordsBytes(m.additional);
    RecordsRoundTrip(m.answer, ns + ar);
    RecordsRoundTrip(m.authority, ar);
    RecordsRoundTrip(m.additional, []);
    PlusEmpty(ar);
    ThreeSections(head, m.question, SectionsBytes(m), AllOnWire(m.answer), ns + ar, AllOnWire(m.authority), ar,
                  AllOnWire(m.additional));
  }

  lemma ResponseCounts(m: Message)
    requires WireMessage(m)
    ensures Response(m).qd == |m.question| && Response(m).an == |m.answer|
    ensures Response(m).ns == |m.authority| && Response(m).ar == |m.additional|
  {
  }

  lemma QuestionsThenSections(b: seq<byte>, head: Head, qs: seq<Question>, rest: seq<byte>)
    requires |b| >= MSG_SIZE && ParseHead(b[..MSG_SIZE]) == head
    requires ParseQuestions(b[MSG_SIZE..], head.qd) == Some((qs, rest))
    ensures ReadMessage(b) == ReadSections(head, qs, rest)
  {
  }

  /** Everything that a message puts on the wire can be read back from its dump. */
  lemma MessageReadsBack(m: Message)
    requires WireMessage(m)
    ensures ReadMessage(MessageBytes(m)) == Some(WireOf(m))
  {
    var head := Response(m);
    MessageParts(m);
    HeadRoundTrip(head);
    ResponseCounts(m);
    QuestionsRoundTrip(m.question, SectionsBytes(m));
    QuestionsThenSections(MessageBytes(m), head, m.question, SectionsBytes(m));
    SectionsReadBack(head, m);
  }

  /** No two different responses share their bytes. */
  lemma MessagesDecodeUniquely(m: Message, v: Message)
    requires WireMessage(m) && WireMessage(v) && MessageBytes(m) == MessageBytes(v)
    ensures WireOf(m) == WireOf(v)
  {
    MessageReadsBack(m);
    MessageReadsBack(v);
  }
}
