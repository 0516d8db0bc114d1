/** A zone: the records of one zone file, indexed by name, type and class. */
module DnsZone {
  import opened Bytes
  import opened DnsNames
  import opened DnsMessage

  const A: uint16 := 1
  const NS: uint16 := 2
  const CNAME: uint16 := 5
  const SOA: uint16 := 6
  const MX: uint16 := 15
  const TXT: uint16 := 16
  const AAAA: uint16 := 28
  const IN: uint16 := 1

  /** enum_contains(type). */
  predicate Supported(t: uint16) {
    t == A || t == NS || t == CNAME || t == SOA || t == MX || t == TXT || t == AAAA
  }

  datatype Key = Key(domain: DN, rtype: uint16, rclass: uint16)

  function KeyOf(r: Record): Key { Key(r.domain, r.rtype, r.rclass) }

  function KeyOfQuestion(q: Question): Key { Key(q.domain, q.qtype, q.qclass) }

  /** The records of a file with a given key, in file order. */
  function Matching(file: seq<Record>, key: Key): seq<Record> {
    if file == [] then []
    else Matching(file[..|file| - 1], key) + if KeyOf(file[|file| - 1]) == key then [file[|file| - 1]] else []
  }

  lemma {:induction false} InMatching(file: seq<Record>, key: Key, rr: Record)
    ensures rr in Matching(file, key) <==> rr in file && KeyOf(rr) == key
  {
    if file != [] {
      var front, last := file[..|file| - 1], file[|file| - 1];
      InMatching(front, key, rr);
      assert file == front + [last];
    }
  }

  predicate Wanted(r: Record, key: Key) {
    r.domain == key.domain && r.rtype == key.rtype && r.rclass == key.rclass
  }

  /** at are the positions of the wanted records, growing, and found has them in that order. */
  ghost predicate InOrder(file: seq<Record>, key: Key, at: seq<nat>, found: seq<Record>) {
    && |at| == |found|
    && (forall i | 0 <= i < |at| :: at[i] < |file| && Wanted(file[at[i]], key) && found[i] == file[at[i]])
    && (forall i, j | 0 <= i < j < |at| :: at[i] < at[j])
    && (forall k | 0 <= k < |file| && Wanted(file[k], key) :: k in at)
  }

  lemma InOrderSnoc(file: seq<Record>, rr: Record, key: Key, at: seq<nat>, found: seq<Record>)
    requires InOrder(file, key, at, found)
    ensures Wanted(rr, key) ==> InOrder(file + [rr], key, at + [|file|], found + [rr])
    ensures !Wanted(rr, key) ==> InOrder(file + [rr], key, at, found)
  {
    var all, on := file + [rr], at + [|file|];
    assert forall k | 0 <= k < |file| :: all[k] == file[k];
    assert |file| in on && forall k <- at :: k in on;
  }

  lemma InOrderStep(front: seq<Record>, rr: Record, key: Key, at: seq<nat>, found: seq<Record>, all: seq<Record>)
      returns (on: seq<nat>)
    requires InOrder(front, key, at, found) && all == found + if Wanted(rr, key) then [rr] else []
    ensures InOrder(front + [rr], key, on, all)
  {
    InOrderSnoc(front, rr, key, at, found);
    if Wanted(rr, key) {
      on := at + [|front|];
    } else {
      PlusEmpty(found);
      on := at;
    }
  }

  lemma MatchingEnd(file: seq<Record>, key: Key)
    requires file != []
    ensures var front, rr := file[..|file| - 1], file[|file| - 1];
      Matching(file, key) == Matching(front, key) + if Wanted(rr, key) then [rr] else []
  {
    assert KeyOf(file[|file| - 1]) == key <==> Wanted(file[|file| - 1], key);
  }

  /** The records found are those of that name, type and class in the order of the file, each as often
      as it stands there. */
  lemma {:induction false} MatchingInOrder(file: seq<Record>, key: Key) returns (at: seq<nat>)
    ensures InOrder(file, key, at, Matching(file, key))
  {
    if file == [] {
      at := [];
    } else {
      var front, rr := file[..|file| - 1], file[|file| - 1];
      at := MatchingInOrder(front, key);
      MatchingEnd(file, key);
      at := InOrderStep(front, rr, key, at, Matching(front, key), Matching(file, key));
      assert file == front + [rr];
    }
  }

  lemma MatchingSnoc(file: seq<Record>, rr: Record, key: Key)
    ensures Matching(file + [rr], key) == Matching(file, key) + if KeyOf(rr) == key then [rr] else []
  {
    assert (file + [rr])[..|file|] == file;
  }

  // ---------- Zone file lines ----------

  datatype Line = Line(name: seq<byte>, ttl: uint32, rclass: uint16, rtype: uint16, text: seq<byte>)

  const SPACE: byte := 32

  function AfterSpace(s: seq<byte>): seq<byte> {
    if s == [] then [] else if s[0] == SPACE then s[1..] else AfterSpace(s[1..])
  }

  /** The name that a record's data points at; for MX it follows the first space, or is the whole
      text when there is none. */
  function DataName(t: uint16, text: seq<byte>): DN {
    if t == NS || t == CNAME then FromText(text)
    else if t == MX then FromText(if SPACE in text then AfterSpace(text) else text)
    else []
  }

  lemma {:induction false} AfterFirstSpace(front: seq<byte>, rest: seq<byte>)
    requires 32 !in front
    ensures AfterSpace(front + [32] + rest) == rest && 32 in front + [32] + rest
  {
    var s := front + [32] + rest;
    assert s[|front|] == 32;
    if front == [] {
      assert s[1..] == rest;
    } else {
      assert s[0] == front[0] && s[1..] == front[1..] + [32] + rest;
      AfterFirstSpace(front[1..], rest);
    }
  }

  /** What a record's data points at, by type number: for NS (2) and CNAME (5) the data itself, for MX
      (15) what stands behind the first space, and for any other type nothing. */
  lemma DataNameIs(t: uint16, text: seq<byte>, front: seq<byte>, rest: seq<byte>)
    ensures t == 2 || t == 5 ==> DataName(t, text) == FromText(text)
    ensures t == 15 && 32 !in front ==> DataName(t, front + [32] + rest) == FromText(rest)
    ensures t == 15 && 32 !in text ==> DataName(t, text) == FromText(text)
    ensures t != 2 && t != 5 && t != 15 ==> DataName(t, text) == []
  {
    if 32 !in front {
      AfterFirstSpace(front, rest);
    }
  }

  function MakeRecord(domain: DN, t: uint16, c: uint16, ttl: uint32, text: seq<byte>, rdata: seq<byte>): Record {
    Record(domain, t, c, ttl, text, rdata, DataName(t, text))
  }

  /** rdataOf stands for Rdata: the wire form of a record's data. */
  function RecordOf(zone: DN, line: Line, rdataOf: (uint16, seq<byte>) -> seq<byte>): Record {
    MakeRecord(zone + FromText(line.name), line.rtype, line.rclass, line.ttl, line.text,
               rdataOf(line.rtype, line.text))
  }

  function FileOf(zone: DN, lines: seq<Line>, rdataOf: (uint16, seq<byte>) -> seq<byte>): seq<Record> {
    if lines == [] then []
    else FileOf(zone, lines[..|lines| - 1], rdataOf) + [RecordOf(zone, lines[|lines| - 1], rdataOf)]
  }

  lemma {:induction false} FileAt(zone: DN, lines: seq<Line>, rdataOf: (uint16, seq<byte>) -> seq<byte>, n: nat, i: nat)
    requires i < n <= |lines|
    ensures |FileOf(zone, lines[..n], rdataOf)| == n
    ensures FileOf(zone, lines[..n], rdataOf)[i] == RecordOf(zone, lines[i], rdataOf)
  {
    assert lines[..n][..n - 1] == lines[..n - 1];
    if n > 1 {
      FileAt(zone, lines, rdataOf, n - 1, if i < n - 1 then i else 0);
    }
  }

  /** Line i of a zone file becomes record i: its name put below the zone, its type, class, time to
      live and text as they stand. */
  lemma LoadedRecord(zone: DN, lines: seq<Line>, rdataOf: (uint16, seq<byte>) -> seq<byte>, i: nat)
    requires i < |lines|
    ensures |FileOf(zone, lines, rdataOf)| == |lines|
    ensures var line := lines[i];
      FileOf(zone, lines, rdataOf)[i] ==
        Record(zone + FromText(line.name), line.rtype, line.rclass, line.ttl, line.text,
               rdataOf(line.rtype, line.text), DataName(line.rtype, line.text))
  {
    FileAt(zone, lines, rdataOf, |lines|, i);
    assert lines[..|lines|] == lines;
  }

  // ---------- Names that spell an address ----------

  predicate Digits(l: Label) {
    |l| <= 3 && forall j | 0 <= j < |l| :: 48 <= l[j] <= 57
  }

  /** Below base: one label of less than 62 bytes, and four labels of at most three digits. */
  predicate NipShaped(domain: DN, base: DN) {
    base <= domain && |domain| == |base| + 5 &&
    var sub := domain[|base|..];
    |sub[0]| < 62 && Digits(sub[1]) && Digits(sub[2]) && Digits(sub[3]) && Digits(sub[4])
  }

  /** By positions and character codes. */
  lemma NipShapedIs(domain: DN, base: DN)
    ensures NipShaped(domain, base) <==>
      && base <= domain && |domain| == |base| + 5 && |domain[|base|]| < 62
      && forall k | |base| < k < |domain| ::
           |domain[k]| <= 3 && forall j | 0 <= j < |domain[k]| :: 48 <= domain[k][j] <= 57
  {
    if base <= domain && |domain| == |base| + 5 {
      var b, sub := |base|, domain[|base|..];
      assert sub[0] == domain[b] && sub[1] == domain[b + 1] && sub[2] == domain[b + 2];
      assert sub[3] == domain[b + 3] && sub[4] == domain[b + 4];
    }
  }

  /** The four digit labels as they are written in the query, separated by dots. */
  function NipText(domain: DN, base: DN): seq<byte>
    requires NipShaped(domain, base)
  {
    var sub := domain[|base|..];
    Address(sub[4], sub[3], sub[2], sub[1])
  }

  function Address(a: Label, b: Label, c: Label, d: Label): seq<byte> {
    a + ([DOT] + (b + ([DOT] + (c + ([DOT] + d)))))
  }

  lemma DottedCons(l: Label, ls: seq<Label>)
    ensures Dotted([l] + ls) == l + ([DOT] + Dotted(ls))
  {
    assert ([l] + ls)[1..] == ls;
    Regroup(l, [DOT], Dotted(ls));
  }

  lemma Inside(s: seq<byte>, t: seq<byte>, x: seq<byte>)
    ensures s + ([DOT] + (t + x)) == (s + ([DOT] + t)) + x
  {
    Regroup([DOT], t, x);
    Regroup(s, [DOT] + t, x);
  }

  lemma DottedAddress(a: Label, b: Label, c: Label, d: Label, rest: seq<Label>)
    ensures Dotted([a] + ([b] + ([c] + ([d] + rest)))) == Address(a, b, c, d) + ([DOT] + Dotted(rest))
  {
    var x := [DOT] + Dotted(rest);
    DottedCons(d, rest);
    DottedCons(c, [d] + rest);
    DottedCons(b, [c] + ([d] + rest));
    DottedCons(a, [b] + ([c] + ([d] + rest)));
    Inside(c, d, x);
    Inside(b, c + ([DOT] + d), x);
    Inside(a, b + ([DOT] + (c + ([DOT] + d))), x);
  }

  /** The address is the front of the queried name as it is written. */
  lemma NipTextInName(domain: DN, base: DN)
    requires NipShaped(domain, base)
    ensures Dotted(Reverse(domain)) ==
      NipText(domain, base) + ([DOT] + Dotted(Reverse(domain[..|base| + 1])))
  {
    var sub, up := domain[|base|..], Reverse(domain[..|base| + 1]);
    assert Reverse(domain) == [sub[4]] + ([sub[3]] + ([sub[2]] + ([sub[1]] + up)));
    DottedAddress(sub[4], sub[3], sub[2], sub[1], up);
  }

  predicate AlphaNumeric(l: Label) {
    0 < |l| <= 61 && forall j | 0 <= j < |l| :: 48 <= l[j] <= 57 || 65 <= l[j] <= 90 || 97 <= l[j] <= 122
  }

  /** The names that the homework's description wants answered: four labels of one to three digits
      before any number of alphanumeric labels. */
  predicate Described(domain: DN, base: DN) {
    base <= domain && |domain| >= |base| + 4 &&
    var n := |domain|;
    (forall k | |base| <= k < n - 4 :: AlphaNumeric(domain[k])) && (forall k | n - 4 <= k < n :: Digits(domain[k]))
  }

  /** On names from the wire the code answers a described name just when exactly one label stands
      between the address and the zone, and goes beyond the description just when that label is not
      alphanumeric. */
  lemma NipAgainstDescription(domain: DN, base: DN)
    requires WireName(domain)
    ensures Described(domain, base) ==> (NipShaped(domain, base) <==> |domain| == |base| + 5)
    ensures NipShaped(domain, base) ==>
      var l := domain[|base|];
      Described(domain, base) <==>
        forall j | 0 <= j < |l| :: 48 <= l[j] <= 57 || 65 <= l[j] <= 90 || 97 <= l[j] <= 122
  {
    if base <= domain && |domain| == |base| + 5 {
      var b, sub := |base|, domain[|base|..];
      assert sub[0] == domain[b] && sub[1] == domain[b + 1] && sub[2] == domain[b + 2];
      assert sub[3] == domain[b + 3] && sub[4] == domain[b + 4];
      assert WireLabel(domain[b]);
    }
  }

  /** 1.2.3.4 directly below the zone org: described, but not answered as an address. */
  lemma NipDirectlyBelowZone()
    ensures var base := [[111, 114, 103]]; var domain := base + [[52], [51], [50], [49]];
      WireName(domain) && Described(domain, base) && !NipShaped(domain, base)
  {
    var base: DN := [[111, 114, 103]];
    var domain := base + [[52], [51], [50], [49]];
    assert domain[0] == base[0] && base <= domain;
    assert forall k | 1 <= k < 5 :: |domain[k]| == 1 && 48 <= domain[k][0] <= 57;
  }

  datatype Nip = NoNip | NipRecord(record: Record) | BadAddress

  /** pton stands for inet_pton; None is its FORMAT_ERROR. */
  function NipFor(domain: DN, base: DN, pton: seq<byte> -> Option<seq<byte>>): Nip {
    if !NipShaped(domain, base) then NoNip else
    var text := NipText(domain, base);
    match pton(text)
    case None => BadAddress
    case Some(rdata) => NipRecord(MakeRecord(domain, A, IN, 1, text, rdata))
  }

  /** niplike. */
  method NipLike(domain: DN, base: DN, pton: seq<byte> -> Option<seq<byte>>) returns (nip: Nip)
    requires base <= domain
    ensures nip == NipFor(domain, base, pton)
  {
    var sub := Minus(domain, base);
    ghost var d := sub;
    sub := Reverse(sub);
    var can := |sub| == 5 && |sub[4]| < 62;
    if can {
      sub := sub[..|sub| - 1];
      assert sub == [d[4], d[3], d[2], d[1]];
      for i := 0 to |sub|
        invariant can <==> forall j | 0 <= j < i :: Digits(sub[j])
      {
        var digits := AllDigits(sub[i]);
        can := can && digits;
      }
      assert can ==> Digits(sub[0]) && Digits(sub[1]) && Digits(sub[2]) && Digits(sub[3]);
    }
    if !can {
      return NoNip;
    }
    sub := Reverse(sub);
    var data := ToText(sub);
    assert Reverse(sub) == [d[4]] + ([d[3]] + ([d[2]] + ([d[1]] + [])));
    DottedAddress(d[4], d[3], d[2], d[1], []);
    assert [DOT] + Dotted([]) == [DOT];
    DropDot(data, NipText(domain, base));
    data := data[..|data| - 1];
    match pton(data)
    case None => nip := BadAddress;
    case Some(rdata) => nip := NipRecord(MakeRecord(domain, A, IN, 1, data, rdata));
  }

  lemma DropDot(data: seq<byte>, text: seq<byte>)
    requires data == text + [DOT]
    ensures data[..|data| - 1] == text
  {
  }

  /** The loop over the bytes of one label. */
  method AllDigits(l: Label) returns (can: bool)
    ensures can <==> Digits(l)
  {
    can := |l| <= 3;
    for i := 0 to |l|
      invariant can <==> |l| <= 3 && forall j | 0 <= j < i :: 48 <= l[j] <= 57
    {
      can := can && 48 <= l[i] <= 57;
    }
  }

  // ---------- Lookups ----------

  datatype Answer = Found(records: seq<Record>) | NameError | NotImplemented | ServerFailure | FormatError

  /** Zone::get(q) on the file's records. */
  function Lookup(zone: DN, file: seq<Record>, q: Question, pton: seq<byte> -> Option<seq<byte>>): Answer {
    if !(zone <= q.domain) then ServerFailure else
    match NipFor(q.domain, zone, pton)
    case NipRecord(r) => Found([r])
    case BadAddress => FormatError
    case NoNip =>
      if !Supported(q.qtype) then NotImplemented
      else if Matching(file, KeyOfQuestion(q)) == [] then NameError
      else Found(Matching(file, KeyOfQuestion(q)))
  }

  /** Zone::getIP: the addresses of a name, IPv4 before IPv6. */
  function Addresses(file: seq<Record>, dn: DN): seq<Record> {
    Matching(file, Key(dn, A, IN)) + Matching(file, Key(dn, AAAA, IN))
  }

  /** The addresses by type number: all A records (1) of the name, then all AAAA records (28), both of
      class IN (1) and in file order. */
  lemma AddressesAre(file: seq<Record>, dn: DN)
    ensures Addresses(file, dn) == Matching(file, Key(dn, 1, 1)) + Matching(file, Key(dn, 28, 1))
  {
  }

  /** The types that the server knows, by number. */
  lemma SupportedAre(t: uint16)
    ensures Supported(t) <==> t in {1, 2, 5, 6, 15, 16, 28}
  {
  }

  class Zone {
    const domain: DN
    var rrs: map<Key, seq<Record>>
    ghost var file: seq<Record>

    /** The index agrees with the file: a key is present when it has records, and maps to them in
        file order. */
    ghost predicate Valid()
      reads this
    {
      && (forall r <- file :: domain <= r.domain)
      && (forall k: Key :: k in rrs <==> Matching(file, k) != [])
      && (forall k <- rrs.Keys :: rrs[k] == Matching(file, k))
    }

    /** What the constructor asserts last. */
    ghost predicate HasSoa()
      reads this
    {
      Matching(file, Key(domain, SOA, IN)) != []
    }

    constructor (domain: DN, lines: seq<Line>, rdataOf: (uint16, seq<byte>) -> seq<byte>)
      requires Matching(FileOf(domain, lines, rdataOf), Key(domain, SOA, IN)) != []
      ensures Valid() && HasSoa() && this.domain == domain && file == FileOf(domain, lines, rdataOf)
    {
      this.domain := domain;
      rrs, file := map[], [];
      new;
      Load(lines, rdataOf);
    }

    /** The constructor's loop over the lines of the zone file. */
    method Load(lines: seq<Line>, rdataOf: (uint16, seq<byte>) -> seq<byte>)
      requires Valid() && file == []
      modifies this
      ensures Valid() && file == FileOf(domain, lines, rdataOf)
    {
      for i := 0 to |lines|
        invariant Valid() && file == FileOf(domain, lines[..i], rdataOf)
      {
        var rr := RecordOf(domain, lines[i], rdataOf);
        assert lines[..i + 1][..i] == lines[..i];
        var ok := Add(rr);
      }
      assert lines[..|lines|] == lines;
    }

    /** Zone::add: ok is false where the process exits. */
    method Add(rr: Record) returns (ok: bool)
      requires Valid()
      modifies this
      ensures Valid()
      ensures ok <==> domain <= rr.domain
      ensures file == if ok then old(file) + [rr] else old(file)
    {
      ok := IsUnder(rr.domain, domain);
      if !ok {
        return;
      }
      var key := KeyOf(rr);
      forall k: Key ensures Matching(file + [rr], k) == Matching(file, k) + if k == key then [rr] else [] {
        MatchingSnoc(file, rr, k);
      }
      rrs := rrs[key := (if key in rrs then rrs[key] else []) + [rr]];
      file := file + [rr];
    }

    method Get(q: Question, pton: seq<byte> -> Option<seq<byte>>) returns (a: Answer)
      requires Valid()
      ensures a == Lookup(domain, file, q, pton)
    {
      var under := IsUnder(q.domain, domain);
      if !under {
        return ServerFailure;
      }
      var nip := NipLike(q.domain, domain, pton);
      match nip {
        case NipRecord(r) => return Found([r]);
        case BadAddress => return FormatError;
        case NoNip =>
      }
      if !Supported(q.qtype) {
        return NotImplemented;
      }
      var key := KeyOfQuestion(q);
      if key in rrs {
        return Found(rrs[key]);
      }
      return NameError;
    }

    /** Zone::get(type), for the zone's own name; None is its NAME_ERROR. */
    method GetOwn(t: uint16) returns (r: Option<seq<Record>>)
      requires Valid()
      ensures r == var own := Matching(file, Key(domain, t, IN)); if own == [] then None else Some(own)
    {
      var key := Key(domain, t, IN);
      r := if key in rrs then Some(rrs[key]) else None;
    }

    method GetIP(dn: DN) returns (r: seq<Record>)
      requires Valid()
      ensures r == Addresses(file, dn)
    {
      r := [];
      var key := Key(dn, A, IN);
      if key in rrs {
        r := r + rrs[key];
      }
      EmptyPlus(Matching(file, key));
      assert r == Matching(file, key);
      key := Key(dn, AAAA, IN);
      if key in rrs {
        r := r + rrs[key];
      }
    }
  }
}
