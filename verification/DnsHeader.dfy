/** The header object that queries are parsed into and responses are dumped from. */
module DnsHeader {
  import opened Bytes
  import opened DnsNames
  import opened DnsMessage

  /** Question::dump. */
  method DumpQuestion(q: Question) returns (r: seq<byte>)
    ensures r == QuestionBytes(q)
  {
    r := ToData(q.domain);
    r := r + BE16(q.qtype);
    r := r + BE16(q.qclass);
  }

  /** Record::dump. */
  method DumpRecord(rr: Record) returns (r: seq<byte>)
    ensures r == RecordBytes(rr)
  {
    r := ToData(rr.domain);
    r := r + BE16(rr.rtype);
    r := r + BE16(rr.rclass);
    r := r + BE32(rr.ttl);
    r := r + BE16(|rr.rdata| % 0x1_0000);
    r := r + rr.rdata;
  }

  lemma {:induction false} QuestionsBytesSnoc(qs: seq<Question>, q: Question)
    ensures QuestionsBytes(qs + [q]) == QuestionsBytes(qs) + QuestionBytes(q)
  {
    if qs == [] {
      assert qs + [q] == [q];
      assert QuestionsBytes([q]) == QuestionBytes(q) + QuestionsBytes([]);
    } else {
      QuestionsBytesSnoc(qs[1..], q);
      Regroup(QuestionBytes(qs[0]), QuestionsBytes(qs[1..]), QuestionBytes(q));
      assert (qs + [q])[1..] == qs[1..] + [q];
    }
  }

  lemma RecordsBytesCons(r: Record, rs: seq<Record>)
    ensures RecordsBytes([r] + rs) == RecordBytes(r) + RecordsBytes(rs)
  {
    assert ([r] + rs)[1..] == rs;
  }

  lemma {:induction false} RecordsBytesSnoc(rs: seq<Record>, r: Record)
    ensures RecordsBytes(rs + [r]) == RecordsBytes(rs) + RecordBytes(r)
  {
    if rs == [] {
      RecordsBytesCons(r, []);
      assert rs + [r] == [r] + [];
    } else {
      RecordsBytesSnoc(rs[1..], r);
      RecordsBytesCons(rs[0], rs[1..] + [r]);
      Regroup(RecordBytes(rs[0]), RecordsBytes(rs[1..]), RecordBytes(r));
      assert rs + [r] == [rs[0]] + (rs[1..] + [r]);
    }
  }

  method DumpRecords(rs: seq<Record>) returns (data: seq<byte>)
    ensures data == RecordsBytes(rs)
  {
    data := [];
    for i := 0 to |rs|
      invariant data == RecordsBytes(rs[..i])
    {
      var r := DumpRecord(rs[i]);
      RecordsBytesSnoc(rs[..i], rs[i]);
      assert rs[..i + 1] == rs[..i] + [rs[i]];
      data := data + r;
    }
    assert rs[..|rs|] == rs;
  }

  method DumpQuestions(qs: seq<Question>) returns (data: seq<byte>)
    ensures data == QuestionsBytes(qs)
  {
    data := [];
    for i := 0 to |qs|
      invariant data == QuestionsBytes(qs[..i])
    {
      var r := DumpQuestion(qs[i]);
      QuestionsBytesSnoc(qs[..i], qs[i]);
      assert qs[..i + 1] == qs[..i] + [qs[i]];
      data := data + r;
    }
    assert qs[..|qs|] == qs;
  }

  class Header {
    var head: Head
    var rrCount: nat
    var question: seq<Question>
    var answer: seq<Record>
    var authority: seq<Record>
    var additional: seq<Record>

    constructor ()
      ensures answer == authority == additional == [] && question == []
    {
      head := Head(0, false, 0, false, false, false, false, 0, 0, 0, 0, 0, 0);
      rrCount, question, answer, authority, additional := 0, [], [], [], [];
    }

    function Value(): Message
      reads this
    {
      Message(head, question, answer, authority, additional)
    }

    /** Header::parse of a readable buffer. ok is false where the original would read past it. */
    method Parse(msg: seq<byte>) returns (ok: bool)
      modifies this
      ensures ok <==> ParseMessage(msg).Some?
      ensures ok ==> ParseMessage(msg) == Some(Value())
      ensures ok ==> rrCount == head.an as int + head.ns as int + head.ar as int
    {
      if |msg| < MSG_SIZE {
        return false;
      }
      head := ParseHead(msg[..MSG_SIZE]);
      rrCount := head.an as int + head.ns as int + head.ar as int;
      ok, question := ReadQuestions(msg, MSG_SIZE, head.qd);
      answer, authority, additional := [], [], [];
    }

    /** Header::dump: it turns the header into a response on the way. */
    method Dump() returns (data: seq<byte>)
      modifies this`head
      ensures data == MessageBytes(old(Value()))
      ensures head == Response(old(Value()))
    {
      head := head.(qr := true, z := 0);
      head := head.(qd := |question| % 0x1_0000);
      head := head.(an := |answer| % 0x1_0000);
      head := head.(ns := |authority| % 0x1_0000);
      head := head.(ar := |additional| % 0x1_0000);
      data := HeadBytes(head);
      var body := DumpBody();
      data := data + body;
    }

    method DumpBody() returns (data: seq<byte>)
      ensures data == QuestionsBytes(question) + SectionsBytes(Value())
    {
      data := DumpQuestions(question);
      var an := DumpRecords(answer);
      var ns := DumpRecords(authority);
      var ar := DumpRecords(additional);
      Regroup(data, an, ns);
      Regroup(data, an + ns, ar);
      Regroup(an, ns, ar);
      data := data + an + ns + ar;
    }
  }

  /** Parse's loop over the questions. */
  method ReadQuestions(msg: seq<byte>, start: nat, n: nat) returns (ok: bool, question: seq<Question>)
    requires start <= |msg|
    ensures ok <==> ParseQuestions(msg[start..], n).Some?
    ensures ok ==> ParseQuestions(msg[start..], n).value.0 == question
  {
    var ptr: nat := start;
    ok, question := true, [];
    ghost var all := ParseQuestions(msg[start..], n);
    QPrefixedNothing(all);
    for i := 0 to n
      invariant ptr <= |msg|
      invariant all == QPrefixed(question, ParseQuestions(msg[ptr..], n - i))
    {
      var read, q, next := ReadQuestion(msg, ptr);
      if !read {
        return false, [];
      }
      FirstQuestion(msg[ptr..], n - i - 1, q, msg[next..]);
      QPrefixedTwice(question, q, ParseQuestions(msg[next..], n - i - 1));
      question := question + [q];
      ptr := next;
    }
    assert question + [] == question;
  }

  /** One turn of parse's loop over the questions. */
  method ReadQuestion(msg: seq<byte>, start: nat) returns (read: bool, q: Question, ptr: nat)
    requires start <= |msg|
    ensures read <==> ParseQuestion(msg[start..]).Some?
    ensures read ==> ptr <= |msg| && ParseQuestion(msg[start..]) == Some((q, msg[ptr..]))
  {
    var ok, domain, next := FromData(msg, start);
    q, ptr, read := Question([], 0, 0), start, false;
    if !ok || |msg| - next < 4 {
      return;
    }
    ghost var rest := msg[next..];
    assert rest[..2] == msg[next..next + 2] && rest[2..4] == msg[next + 2..next + 4] && rest[4..] == msg[next + 4..];
    ReverseTwice(domain);
    q := Question(domain, FromBE16(msg[next..next + 2]), FromBE16(msg[next + 2..next + 4]));
    ptr, read := next + 4, true;
  }
}
