/** A zone file like those that come with the name server (conf/demo/zone-demo1.org.txt), for any names:
    from its lines to its answers, and one query byte for byte. */
module DnsDemo {
  import opened Bytes
  import opened DnsNames
  import opened DnsMessage
  import opened DnsZone
  import opened DnsServer

  type RdataOf = (uint16, seq<byte>) -> seq<byte>

  /** The labels: org and demo1 of the zone; dns, www and mail below it; and the texts of the data. */
  datatype Labels = Labels(org: Label, demo: Label, dns: Label, www: Label, mail: Label, soaText: seq<byte>,
                           preference: seq<byte>, dnsAddress: seq<byte>, wwwAddress: seq<byte>, mailAddress: seq<byte>)

  /** Not empty, without a dot (46), and not '@' (64). */
  predicate Plain(l: Label) {
    l != [] && l != [64] && 46 !in l
  }

  predicate Sound(n: Labels) {
    && Plain(n.org) && Plain(n.demo) && Plain(n.dns) && Plain(n.www) && Plain(n.mail)
    && n.dns != n.www && n.dns != n.mail && n.www != n.mail && 32 !in n.preference
  }

  function Apex(n: Labels): DN { [n.org, n.demo] }

  function Below(n: Labels, l: Label): DN { [n.org, n.demo, l] }

  /** A host's name as it is written: "dns.demo1.org." */
  function Written(n: Labels, l: Label): seq<byte> {
    l + ([46] + (n.demo + ([46] + (n.org + [46]))))
  }

  /** "10 mail.demo1.org." */
  function MxText(n: Labels): seq<byte> {
    n.preference + [32] + Written(n, n.mail)
  }

  /** The lines, with the type names as numbers: SOA 6, NS 2, MX 15, A 1; class IN is 1. */
  function Lines(n: Labels): seq<Line> {
    [Line([64], 3600, 1, 6, n.soaText), Line([64], 3600, 1, 2, Written(n, n.dns)), Line([64], 3600, 1, 15, MxText(n)),
     Line(n.dns, 3600, 1, 1, n.dnsAddress), Line(n.www, 300, 1, 1, n.wwwAddress), Line(n.mail, 3600, 1, 1, n.mailAddress)]
  }

  function Soa(n: Labels, f: RdataOf): Record { Record(Apex(n), 6, 1, 3600, n.soaText, f(6, n.soaText), []) }

  function Ns(n: Labels, f: RdataOf): Record {
    Record(Apex(n), 2, 1, 3600, Written(n, n.dns), f(2, Written(n, n.dns)), Below(n, n.dns))
  }

  function Mx(n: Labels, f: RdataOf): Record {
    Record(Apex(n), 15, 1, 3600, MxText(n), f(15, MxText(n)), Below(n, n.mail))
  }

  function Dns(n: Labels, f: RdataOf): Record {
    Record(Below(n, n.dns), 1, 1, 3600, n.dnsAddress, f(1, n.dnsAddress), [])
  }

  function Www(n: Labels, f: RdataOf): Record {
    Record(Below(n, n.www), 1, 1, 300, n.wwwAddress, f(1, n.wwwAddress), [])
  }

  function Mail(n: Labels, f: RdataOf): Record {
    Record(Below(n, n.mail), 1, 1, 3600, n.mailAddress, f(1, n.mailAddress), [])
  }

  function File(n: Labels, f: RdataOf): seq<Record> {
    [Soa(n, f), Ns(n, f), Mx(n, f), Dns(n, f), Www(n, f), Mail(n, f)]
  }

  // ---------- Loading ----------

  lemma OneLabel(l: Label)
    requires Plain(l)
    ensures FromText(l) == [l]
  {
    DottedCons(l, []);
    assert [l] + [] == [l] && Dotted([l]) == l + [46];
    TextOfLabels([l]);
    assert l[|l| - 1] in l;
    TrailingDot(l);
    assert Reverse([l]) == [l];
  }

  lemma ThreeLabels(a: Label, b: Label, c: Label)
    requires 46 !in a && 46 !in b && 46 !in c
    ensures FromText(a + ([46] + (b + ([46] + (c + [46]))))) == [c, b, a]
  {
    DottedCons(c, []);
    DottedCons(b, [c]);
    DottedCons(a, [b, c]);
    assert [c] + [] == [c] && [b] + [c] == [b, c] && [a] + [b, c] == [a, b, c];
    assert [46] + Dotted([]) == [46];
    TextOfLabels([a, b, c]);
    assert Reverse([a, b, c]) == [c, b, a];
  }

  lemma ApexLine(n: Labels, line: Line)
    requires Sound(n) && line.name == [64]
    ensures Apex(n) + FromText(line.name) == Apex(n)
    ensures line.rtype == 6 ==> DataName(line.rtype, line.text) == []
    ensures line.rtype == 2 && line.text == Written(n, n.dns) ==> DataName(line.rtype, line.text) == Below(n, n.dns)
    ensures line.rtype == 15 && line.text == MxText(n) ==> DataName(line.rtype, line.text) == Below(n, n.mail)
  {
    AtSignIsEmpty();
    PlusEmpty(Apex(n));
    DataNameIs(line.rtype, line.text, n.preference, Written(n, n.mail));
    ThreeLabels(n.dns, n.demo, n.org);
    ThreeLabels(n.mail, n.demo, n.org);
  }

  lemma HostLine(n: Labels, line: Line)
    requires Plain(line.name) && line.rtype == 1
    ensures Apex(n) + FromText(line.name) == Below(n, line.name) && DataName(line.rtype, line.text) == []
  {
    OneLabel(line.name);
    DataNameIs(line.rtype, line.text, [], []);
  }

  lemma ApexLoaded(n: Labels, f: RdataOf, line: Line, i: nat)
    requires Sound(n) && i < 3 && line == Lines(n)[i]
    ensures MakeRecord(Apex(n) + FromText(line.name), line.rtype, line.rclass, line.ttl, line.text,
                       f(line.rtype, line.text)) == File(n, f)[i]
  {
    ApexLine(n, line);
  }

  lemma HostLoaded(n: Labels, f: RdataOf, line: Line, i: nat)
    requires Sound(n) && 3 <= i < 6 && line == Lines(n)[i]
    ensures MakeRecord(Apex(n) + FromText(line.name), line.rtype, line.rclass, line.ttl, line.text,
                       f(line.rtype, line.text)) == File(n, f)[i]
  {
    HostLine(n, line);
  }

  lemma LoadedAt(n: Labels, f: RdataOf, lines: seq<Line>, i: nat)
    requires Sound(n) && i < 6 && lines == Lines(n)
    ensures |FileOf(Apex(n), lines, f)| == 6 && FileOf(Apex(n), lines, f)[i] == File(n, f)[i]
  {
    LoadedRecord(Apex(n), lines, f, i);
    if i < 3 {
      ApexLoaded(n, f, lines[i], i);
    } else {
      HostLoaded(n, f, lines[i], i);
    }
  }

  /** The file's lines as records: "@" is the zone itself, a name is put below the zone, the mail host is
      what stands behind the space. */
  lemma DemoLoads(n: Labels, f: RdataOf)
    requires Sound(n)
    ensures FileOf(Apex(n), Lines(n), f) == File(n, f)
  {
    var lines := Lines(n);
    forall i: nat | i < 6 ensures |FileOf(Apex(n), lines, f)| == 6 && FileOf(Apex(n), lines, f)[i] == File(n, f)[i] {
      LoadedAt(n, f, lines, i);
    }
    LoadedAt(n, f, lines, 0);
  }

  // ---------- Answers ----------

  function Pick(r: Record, key: Key): seq<Record> {
    if Wanted(r, key) then [r] else []
  }

  lemma MatchingThree(a: Record, b: Record, c: Record, key: Key)
    ensures Matching([a, b, c], key) == Pick(a, key) + Pick(b, key) + Pick(c, key)
  {
    MatchingTwo(a, b, key);
    MatchingSnoc([a, b], c, key);
    assert [a, b] + [c] == [a, b, c];
  }

  lemma {:induction false} MatchingPlus(x: seq<Record>, y: seq<Record>, key: Key)
    ensures Matching(x + y, key) == Matching(x, key) + Matching(y, key)
  {
    if y == [] {
      PlusEmpty(x);
      PlusEmpty(Matching(x, key));
    } else {
      var front, last := y[..|y| - 1], y[|y| - 1];
      assert y == front + [last];
      Regroup(x, front, [last]);
      MatchingPlus(x, front, key);
      MatchingSnoc(x + front, last, key);
      MatchingSnoc(front, last, key);
      Regroup(Matching(x, key), Matching(front, key), Pick(last, key));
    }
  }

  lemma FileMatching(n: Labels, f: RdataOf, key: Key)
    ensures Matching(File(n, f), key) ==
      (Pick(Soa(n, f), key) + Pick(Ns(n, f), key) + Pick(Mx(n, f), key))
      + (Pick(Dns(n, f), key) + Pick(Www(n, f), key) + Pick(Mail(n, f), key))
  {
    var x, y := [Soa(n, f), Ns(n, f), Mx(n, f)], [Dns(n, f), Www(n, f), Mail(n, f)];
    assert File(n, f) == x + y;
    MatchingPlus(x, y, key);
    MatchingThree(Soa(n, f), Ns(n, f), Mx(n, f), key);
    MatchingThree(Dns(n, f), Www(n, f), Mail(n, f), key);
  }

  lemma ZoneKey(n: Labels, f: RdataOf, t: uint16)
    ensures Matching(File(n, f), Key(Apex(n), t, 1)) ==
      if t == 6 then [Soa(n, f)] else if t == 2 then [Ns(n, f)] else if t == 15 then [Mx(n, f)] else []
  {
    FileMatching(n, f, Key(Apex(n), t, 1));
  }

  lemma HostPicks(n: Labels, f: RdataOf, l: Label, key: Key)
    requires key.domain == Below(n, l) && key.rclass == 1
    ensures Pick(Soa(n, f), key) == [] && Pick(Ns(n, f), key) == [] && Pick(Mx(n, f), key) == []
    ensures Pick(Dns(n, f), key) == if l == n.dns && key.rtype == 1 then [Dns(n, f)] else []
    ensures Pick(Www(n, f), key) == if l == n.www && key.rtype == 1 then [Www(n, f)] else []
    ensures Pick(Mail(n, f), key) == if l == n.mail && key.rtype == 1 then [Mail(n, f)] else []
  {
    assert |Apex(n)| == 2 && |key.domain| == 3 && key.domain[2] == l;
    assert Below(n, n.dns)[2] == n.dns && Below(n, n.www)[2] == n.www && Below(n, n.mail)[2] == n.mail;
  }

  lemma HostKey(n: Labels, f: RdataOf, l: Label, t: uint16)
    requires Sound(n)
    ensures l == n.www ==> Matching(File(n, f), Key(Below(n, l), t, 1)) == if t == 1 then [Www(n, f)] else []
    ensures l == n.mail ==> Matching(File(n, f), Key(Below(n, l), t, 1)) == if t == 1 then [Mail(n, f)] else []
  {
    FileMatching(n, f, Key(Below(n, l), t, 1));
    HostPicks(n, f, l, Key(Below(n, l), t, 1));
  }

  lemma RootKey(n: Labels, f: RdataOf, t: uint16)
    ensures Matching(File(n, f), Key([], t, 1)) == []
  {
    FileMatching(n, f, Key([], t, 1));
  }

  function Query(name: DN, t: uint16): Message {
    Message(Head(0x1234, false, 0, false, false, true, false, 0, 0, 1, 0, 0, 0), [Question(name, t, 1)], [], [], [])
  }

  function Data(n: Labels, f: RdataOf): map<DN, seq<Record>> {
    map[Apex(n) := File(n, f)]
  }

  /** The mail exchanger of the zone, with the name server and the address of the mail host. */
  lemma AsksForMx(n: Labels, f: RdataOf, pton: Pton)
    requires Sound(n)
    ensures var r := Respond(Data(n, f), Query(Apex(n), 15), pton);
      r.threw == None && r.m.answer == [Mx(n, f)] && r.m.authority == [Ns(n, f)] && r.m.additional == [Mail(n, f)]
      && r.m.head.rcode == 0 && r.m.head.aa
  {
    ZoneKey(n, f, 6);
    ZoneKey(n, f, 15);
    ZoneKey(n, f, 2);
    HostKey(n, f, n.mail, 1);
    HostKey(n, f, n.mail, 28);
    ZoneAnswer(Data(n, f), Query(Apex(n), 15), Apex(n), pton);
    AddressesOfOne(File(n, f), Mx(n, f));
    AddressesAre(File(n, f), Below(n, n.mail));
    PlusEmpty([Mail(n, f)]);
  }

  /** The address of www, and the name server. */
  lemma AsksForWww(n: Labels, f: RdataOf, pton: Pton)
    requires Sound(n)
    ensures var r := Respond(Data(n, f), Query(Below(n, n.www), 1), pton);
      r.threw == None && r.m.answer == [Www(n, f)] && r.m.authority == [Ns(n, f)] && r.m.additional == []
      && r.m.head.rcode == 0 && r.m.head.aa
  {
    ZoneKey(n, f, 6);
    ZoneKey(n, f, 2);
    HostKey(n, f, n.www, 1);
    RootKey(n, f, 1);
    RootKey(n, f, 28);
    ZoneAnswer(Data(n, f), Query(Below(n, n.www), 1), Apex(n), pton);
    AddressesOfOne(File(n, f), Www(n, f));
    AddressesAre(File(n, f), []);
  }

  /** www has no text: RCODE 3, with the SOA record. */
  lemma AsksForMissing(n: Labels, f: RdataOf, pton: Pton)
    requires Sound(n)
    ensures var r := Respond(Data(n, f), Query(Below(n, n.www), 16), pton);
      r.threw == None && r.m.answer == [] && r.m.authority == [Soa(n, f)] && r.m.additional == []
      && r.m.head.rcode == 3 && r.m.head.aa
  {
    ZoneKey(n, f, 6);
    ZoneKey(n, f, 2);
    HostKey(n, f, n.www, 16);
    ZoneAnswer(Data(n, f), Query(Below(n, n.www), 16), Apex(n), pton);
  }

  // ---------- Bytes ----------

  lemma ApexOnWire(n: Labels)
    requires |n.demo| < 256 && |n.org| < 256
    ensures Encoded(Apex(n)) == [|n.demo|] + n.demo + ([|n.org|] + n.org + [0])
  {
    var ls, rest, none := [n.demo, n.org], [n.org], [];
    assert Reverse(Apex(n)) == ls;
    assert ls[1..] == rest && rest[1..] == none;
    assert NameBytes(ls) == [|n.demo| % 256] + n.demo + NameBytes(rest);
    assert NameBytes(rest) == [|n.org| % 256] + n.org + NameBytes(none);
  }

  /** The question for type PTR (12) and class IN (1), byte for byte. */
  function PtrQuestion(n: Labels): seq<byte>
    requires |n.demo| < 256 && |n.org| < 256
  {
    [|n.demo|] + n.demo + ([|n.org|] + n.org + [0]) + [0, 12, 0, 1]
  }

  lemma PtrQuestionIs(n: Labels, qs: seq<Question>)
    requires |n.demo| < 256 && |n.org| < 256 && qs == [Question(Apex(n), 12, 1)]
    ensures QuestionsBytes(qs) == PtrQuestion(n)
  {
    QuestionLayout(qs[0]);
    ApexOnWire(n);
    assert qs[1..] == [];
    PlusEmpty(QuestionBytes(qs[0]));
  }

  lemma HeadAndQuestions(b: seq<byte>, h: Head, qs: seq<Question>)
    requires WireQuestions(qs) && h.qd == |qs| && b == HeadBytes(h) + QuestionsBytes(qs)
    ensures ParseMessage(b) == Some(Message(h, qs, [], [], []))
  {
    HeadRoundTrip(h);
    assert b[..MSG_SIZE] == HeadBytes(h) && b[MSG_SIZE..] == QuestionsBytes(qs);
    PlusEmpty(QuestionsBytes(qs));
    QuestionsRoundTrip(qs, []);
  }

  lemma QueryHeadBytes(h: Head)
    requires h == Head(0x1234, false, 0, false, false, true, false, 0, 0, 1, 0, 0, 0)
    ensures HeadBytes(h) == [0x12, 0x34, 0x01, 0x00, 0, 1, 0, 0, 0, 0, 0, 0]
  {
    HeadLayout(h);
    assert h.id / 256 == 0x12 && h.id % 256 == 0x34 && h.qd / 256 == 0 && h.qd % 256 == 1;
    assert h.an / 256 == 0 && h.an % 256 == 0 && h.ns == h.an && h.ar == h.an;
  }

  lemma ReplyHeadBytes(h: Head)
    requires h == Head(0x1234, true, 0, true, false, true, false, 0, 4, 1, 0, 0, 0)
    ensures HeadBytes(h) == [0x12, 0x34, 0x85, 0x04, 0, 1, 0, 0, 0, 0, 0, 0]
  {
    HeadLayout(h);
  }

  lemma PtrQueryParses(n: Labels, query: seq<byte>)
    requires 0 < |n.demo| < 256 && 0 < |n.org| < 256
    requires query == [0x12, 0x34, 0x01, 0x00, 0, 1, 0, 0, 0, 0, 0, 0] + PtrQuestion(n)
    ensures ParseMessage(query) == Some(Query(Apex(n), 12))
  {
    var m := Query(Apex(n), 12);
    QueryHeadBytes(m.head);
    PtrQuestionIs(n, m.question);
    HeadAndQuestions(query, m.head, m.question);
  }

  lemma NoRecordsOnWire(m: Message)
    requires m.answer == m.authority == m.additional == []
    ensures MessageBytes(m) == HeadBytes(Response(m)) + QuestionsBytes(m.question)
  {
    assert SectionsBytes(m) == [];
    PlusEmpty(QuestionsBytes(m.question));
  }

  /** Byte for byte: asked for a PTR record of the zone, the server sends the query back with QR, AA and
      RCODE 4. */
  lemma AsksForPtr(n: Labels, f: RdataOf, pton: Pton, query: seq<byte>)
    requires 0 < |n.demo| < 256 && 0 < |n.org| < 256
    requires query == [0x12, 0x34, 0x01, 0x00, 0, 1, 0, 0, 0, 0, 0, 0] + PtrQuestion(n)
    ensures ReactionToBytes(Data(n, f), ParseMessage(query), pton) ==
      Some(Bytes([0x12, 0x34, 0x85, 0x04, 0, 1, 0, 0, 0, 0, 0, 0] + PtrQuestion(n)))
  {
    var m := Query(Apex(n), 12);
    var reply := m.(head := m.head.(aa := true, rd := true, ra := false, rcode := 4));
    PtrQueryParses(n, query);
    UnknownType(Data(n, f), m, Apex(n), pton);
    ReactionOf(Data(n, f), m, pton, reply);
    PtrReplyBytes(n, reply);
  }

  lemma PtrReplyBytes(n: Labels, m: Message)
    requires |n.demo| < 256 && |n.org| < 256
    requires m == Message(Head(0x1234, false, 0, true, false, true, false, 0, 4, 1, 0, 0, 0),
                          [Question(Apex(n), 12, 1)], [], [], [])
    ensures MessageBytes(m) == [0x12, 0x34, 0x85, 0x04, 0, 1, 0, 0, 0, 0, 0, 0] + PtrQuestion(n)
  {
    NoRecordsOnWire(m);
    ReplyHeadBytes(Response(m));
    PtrQuestionIs(n, m.question);
  }
}
