/** Domain names: label vectors with the most general label first, their text and wire forms. */
module DnsNames {
  import opened Bytes

  type Label = seq<byte>
  type DN = seq<Label>

  const DOT: byte := 46
  const AT_SIGN: byte := 64

  function Reverse<T>(s: seq<T>): (r: seq<T>)
    ensures |r| == |s|
    ensures forall i | 0 <= i < |s| :: r[i] == s[|s| - 1 - i]
  {
    if s == [] then [] else Reverse(s[1..]) + [s[0]]
  }

  lemma ReverseTwice<T>(s: seq<T>)
    ensures Reverse(Reverse(s)) == s
  {
  }

  // ---------- operator% and operator- ----------

  /** a % b: whether a is b or lies below it. */
  method IsUnder(a: DN, b: DN) returns (under: bool)
    ensures under <==> b <= a
  {
    if |a| < |b| {
      return false;
    }
    for i := 0 to |b|
      invariant a[..i] == b[..i]
    {
      if a[i] != b[i] {
        return false;
      }
    }
    return true;
  }

  /** a - b: the labels of a below b, or all of them if a is not below b. */
  method Minus(a: DN, b: DN) returns (r: DN)
    ensures r == if b <= a then a[|b|..] else a
  {
    r := a;
    var under := IsUnder(r, b);
    if under {
      r := Reverse(r);
      for i := 0 to |b|
        invariant r == Reverse(a)[..|a| - i]
      {
        r := r[..|r| - 1];
      }
      r := Reverse(r);
    }
  }

  // ---------- Text form ----------

  predicate HasDot(l: Label) { DOT in l }

  predicate Dotless(ls: seq<Label>) {
    forall i | 0 <= i < |ls| :: !HasDot(ls[i])
  }

  /** The labels of a text, in text order; the empty piece after a trailing dot is no label. */
  function Split(s: seq<byte>): seq<Label>
    decreases |s|
  {
    if s == [] then []
    else
      var n := FirstDot(s);
      [s[..n]] + if n == |s| then [] else Split(s[n + 1..])
  }

  function FirstDot(s: seq<byte>): (n: nat)
    ensures n <= |s| && DOT !in s[..n]
    ensures n < |s| ==> s[n] == DOT
  {
    if s == [] || s[0] == DOT then 0 else 1 + FirstDot(s[1..])
  }

  /** s2dn. */
  function FromText(s: seq<byte>): DN {
    if s == [AT_SIGN] then [] else Reverse(Split(s))
  }

  /** A text of one '@' (64) is the zone itself. */
  lemma AtSignIsEmpty()
    ensures FromText([64]) == []
  {
  }

  function Dotted(ls: seq<Label>): seq<byte> {
    if ls == [] then [] else ls[0] + [DOT] + Dotted(ls[1..])
  }

  lemma {:induction false} DottedSnoc(ls: seq<Label>, l: Label)
    ensures Dotted(ls + [l]) == Dotted(ls) + l + [DOT]
  {
    if ls == [] {
      assert ls + [l] == [l];
      assert Dotted([l]) == l + [DOT] + Dotted([]);
    } else {
      DottedSnoc(ls[1..], l);
      assert (ls + [l])[1..] == ls[1..] + [l];
    }
  }

  /** dn2s: a dot after every label, the most general label last. */
  method ToText(domain: DN) returns (s: seq<byte>)
    ensures s == Dotted(Reverse(domain))
  {
    s := [];
    var labels := Reverse(domain);
    for i := 0 to |labels|
      invariant s == Dotted(labels[..i])
    {
      assert labels[..i + 1] == labels[..i] + [labels[i]];
      DottedSnoc(labels[..i], labels[i]);
      s := s + labels[i] + [DOT];
    }
    assert labels[..|labels|] == labels;
  }

  lemma FirstDotIs(s: seq<byte>, n: nat)
    requires n < |s| && s[n] == DOT && DOT !in s[..n]
    ensures FirstDot(s) == n
  {
    var m := FirstDot(s);
    assert forall i | 0 <= i < n :: s[i] == s[..n][i];
    assert forall i | 0 <= i < m :: s[i] == s[..m][i];
  }

  lemma {:induction false} SplitDotted(ls: seq<Label>)
    requires Dotless(ls)
    ensures Split(Dotted(ls)) == ls
  {
    if ls != [] {
      var s := Dotted(ls);
      assert s[..|ls[0]|] == ls[0];
      assert !HasDot(ls[0]);
      FirstDotIs(s, |ls[0]|);
      assert s[|ls[0]| + 1..] == Dotted(ls[1..]);
      SplitDotted(ls[1..]);
    }
  }

  lemma {:induction false} SplitHasNoDots(s: seq<byte>)
    ensures Dotless(Split(s))
    decreases |s|
  {
    if s != [] {
      var n := FirstDot(s);
      assert !HasDot(s[..n]);
      if n < |s| {
        SplitHasNoDots(s[n + 1..]);
      }
    }
  }

  lemma DottedIsNotAt(ls: seq<Label>)
    ensures Dotted(ls) != [AT_SIGN]
  {
    if ls != [] {
      DottedSnoc(ls[..|ls| - 1], ls[|ls| - 1]);
      assert ls == ls[..|ls| - 1] + [ls[|ls| - 1]];
      var s := Dotted(ls);
      assert s[|s| - 1] == DOT;
    }
  }

  /** Writing a name out and reading it back gives the name exactly when no label holds a dot. */
  lemma TextRoundTrip(domain: DN)
    ensures FromText(Dotted(Reverse(domain))) == domain <==> Dotless(domain)
  {
    var ls := Reverse(domain);
    ReverseTwice(domain);
    DottedIsNotAt(ls);
    ReverseDotless(domain);
    if Dotless(domain) {
      SplitDotted(ls);
    } else {
      SplitHasNoDots(Dotted(ls));
      ReverseDotless(Split(Dotted(ls)));
    }
  }

  lemma ReverseDotless(ls: seq<Label>)
    ensures Dotless(Reverse(ls)) <==> Dotless(ls)
  {
    forall i | 0 <= i < |ls| && Dotless(Reverse(ls)) ensures !HasDot(ls[i]) {
      assert ls[i] == Reverse(ls)[|ls| - 1 - i];
    }
  }

  /** Labels with a dot (46) behind each, the most specific first, are read as the name of these labels,
      the most general first. */
  lemma TextOfLabels(ls: seq<Label>)
    requires forall i | 0 <= i < |ls| :: 46 !in ls[i]
    ensures FromText(Dotted(ls)) == Reverse(ls)
  {
    assert Dotless(ls);
    SplitDotted(ls);
    DottedIsNotAt(ls);
  }

  /** A trailing dot does not change the name that a text denotes. */
  lemma TrailingDot(s: seq<byte>)
    requires s != [] && s[|s| - 1] != DOT && s != [AT_SIGN]
    ensures FromText(s + [DOT]) == FromText(s)
  {
    SplitTrailingDot(s);
    assert |s + [DOT]| > 1;
  }

  lemma {:induction false} SplitTrailingDot(s: seq<byte>)
    requires s != [] && s[|s| - 1] != DOT
    ensures Split(s + [DOT]) == Split(s)
    decreases |s|
  {
    var n, t := FirstDot(s), s + [DOT];
    assert t[..n] == s[..n];
    FirstDotIs(t, n);
    if n == |s| {
      assert t[n + 1..] == [];
    } else {
      SplitTrailingDot(s[n + 1..]);
      assert t[n + 1..] == s[n + 1..] + [DOT];
    }
  }

  // ---------- Wire form ----------

  /** The encoding of labels in wire order (section 3.1 of RFC 1035). The length is narrowed to one
      byte. */
  function NameBytes(ls: seq<Label>): seq<byte> {
    if ls == [] then [0] else [|ls[0]| % 256] + ls[0] + NameBytes(ls[1..])
  }

  function LabelBytes(ls: seq<Label>): seq<byte> {
    if ls == [] then [] else LabelBytes(ls[..|ls| - 1]) + [|ls[|ls| - 1]| % 256] + ls[|ls| - 1]
  }

  lemma {:induction false} NameIsLabels(ls: seq<Label>, more: seq<Label>)
    ensures NameBytes(ls + more) == LabelBytes(ls) + NameBytes(more)
  {
    if ls == [] {
      assert ls + more == more;
    } else {
      var front, last := ls[..|ls| - 1], ls[|ls| - 1];
      NameIsLabels(front, [last] + more);
      assert ls + more == front + ([last] + more);
      assert ([last] + more)[1..] == more;
    }
  }

  function Encoded(domain: DN): seq<byte> {
    NameBytes(Reverse(domain))
  }

  /** dn2data. */
  method ToData(domain: DN) returns (data: seq<byte>)
    ensures data == Encoded(domain)
  {
    data := [];
    var labels := Reverse(domain);
    for i := 0 to |labels|
      invariant data == LabelBytes(labels[..i])
    {
      assert labels[..i + 1][..i] == labels[..i];
      data := data + [|labels[i]| % 256] + labels[i];
    }
    data := data + [0];
    NameIsLabels(labels, []);
    assert labels[..|labels|] == labels && labels + [] == labels;
  }

  /** The name at the front of b, in wire order, and what follows it; None where reading it would
      leave the buffer. */
  function ParseName(b: seq<byte>): (r: Option<(seq<Label>, seq<byte>)>)
    ensures r.Some? ==> |r.value.1| < |b|
    decreases |b|
  {
    if b == [] then None
    else if b[0] == 0 then Some(([], b[1..]))
    else
      var n: nat := b[0];
      if |b| < 1 + n then None else Prefixed([b[1..1 + n]], ParseName(b[1 + n..]))
  }

  predicate WireLabel(l: Label) { 0 < |l| < 256 }

  lemma ParseOneLabel(l: Label, more: seq<byte>)
    requires WireLabel(l)
    ensures ParseName([|l| % 256] + l + more) == Prefixed([l], ParseName(more))
  {
    var b := [|l| % 256] + l + more;
    assert b[0] == |l| && b[1..1 + |l|] == l && b[1 + |l|..] == more;
  }

  lemma HeadAndTail<T>(s: seq<T>)
    requires s != []
    ensures [s[0]] + s[1..] == s
  {
  }

  lemma {:induction false} ParseOfName(ls: seq<Label>, rest: seq<byte>)
    requires forall l <- ls :: WireLabel(l)
    ensures ParseName(NameBytes(ls) + rest) == Some((ls, rest))
  {
    if ls == [] {
      assert ([0] + rest)[1..] == rest;
    } else {
      var more := NameBytes(ls[1..]) + rest;
      ParseOfName(ls[1..], rest);
      assert WireLabel(ls[0]);
      ParseOneLabel(ls[0], more);
      Regroup([|ls[0]| % 256] + ls[0], NameBytes(ls[1..]), rest);
      HeadAndTail(ls);
    }
  }

  lemma NameOfPiece(b: seq<byte>, n: nat, ls: seq<Label>, rest: seq<byte>)
    requires b != [] && b[0] == n && 0 < n < |b| && b[1 + n..] == NameBytes(ls) + rest
    ensures b == NameBytes([b[1..1 + n]] + ls) + rest
  {
    var l := b[1..1 + n];
    assert ([l] + ls)[1..] == ls;
    assert b == [b[0]] + l + b[1 + n..];
  }

  lemma {:induction false} NameOfParse(b: seq<byte>)
    requires ParseName(b).Some?
    ensures var (ls, rest) := ParseName(b).value;
      (forall l <- ls :: WireLabel(l)) && b == NameBytes(ls) + rest
    decreases |b|
  {
    if b[0] == 0 {
      assert b == [0] + b[1..];
    } else {
      var n: nat := b[0];
      NameOfParse(b[1 + n..]);
      var (ls, rest) := ParseName(b[1 + n..]).value;
      NameOfPiece(b, n, ls, rest);
      assert WireLabel(b[1..1 + n]);
    }
  }

  /** Decoding is exact: a buffer starts with the name ls and goes on with rest just when it is the
      encoding of ls followed by rest and every label has 1 to 255 bytes. */
  lemma ParseIffName(b: seq<byte>, ls: seq<Label>, rest: seq<byte>)
    ensures ParseName(b) == Some((ls, rest)) <==> (forall l <- ls :: WireLabel(l)) && b == NameBytes(ls) + rest
  {
    if ParseName(b).Some? {
      NameOfParse(b);
    }
    if (forall l <- ls :: WireLabel(l)) && b == NameBytes(ls) + rest {
      ParseOfName(ls, rest);
    }
  }

  lemma ParseStep(data: seq<byte>, ptr: nat)
    requires ptr < |data| && data[ptr] != 0
    ensures var sz: nat := data[ptr];
      ParseName(data[ptr..]) ==
        if |data| - ptr < 1 + sz then None
        else Prefixed([data[ptr + 1..ptr + 1 + sz]], ParseName(data[ptr + 1 + sz..]))
  {
    var b, sz: nat := data[ptr..], data[ptr];
    if |data| - ptr >= 1 + sz {
      assert b[1..1 + sz] == data[ptr + 1..ptr + 1 + sz] && b[1 + sz..] == data[ptr + 1 + sz..];
    }
  }

  /** data2dn: the cursor ends right after the name. ok is false where the original would read past
      its buffer. */
  method FromData(data: seq<byte>, start: nat) returns (ok: bool, domain: DN, ptr: nat)
    requires start <= |data|
    ensures ok <==> ParseName(data[start..]).Some?
    ensures ok ==> ptr <= |data| && ParseName(data[start..]) == Some((Reverse(domain), data[ptr..]))
  {
    ptr, domain := start, [];
    PrefixedNothing(ParseName(data[start..]));
    while ptr < |data| && data[ptr] != 0
      invariant start <= ptr <= |data|
      invariant ParseName(data[start..]) == Prefixed(domain, ParseName(data[ptr..]))
      decreases |data| - ptr
    {
      ParseStep(data, ptr);
      var sz: nat := data[ptr];
      if |data| - ptr < 1 + sz {
        return false, [], ptr;
      }
      var piece := data[ptr + 1..ptr + 1 + sz];
      PrefixedTwice(domain, piece, ParseName(data[ptr + 1 + sz..]));
      domain := domain + [piece];
      ptr := ptr + 1 + sz;
    }
    if ptr == |data| {
      return false, [], ptr;
    }
    assert data[ptr..][1..] == data[ptr + 1..];
    ptr := ptr + 1;
    ReverseTwice(domain);
    assert domain + [] == domain;
    return true, Reverse(domain), ptr;
  }

  function Prefixed(ls: seq<Label>, r: Option<(seq<Label>, seq<byte>)>): Option<(seq<Label>, seq<byte>)> {
    match r
    case None => None
    case Some((more, rest)) => Some((ls + more, rest))
  }

  lemma PrefixedNothing(r: Option<(seq<Label>, seq<byte>)>)
    ensures Prefixed([], r) == r
  {
    if r.Some? {
      EmptyPlus(r.value.0);
    }
  }

  lemma PrefixedTwice(ls: seq<Label>, l: Label, r: Option<(seq<Label>, seq<byte>)>)
    ensures Prefixed(ls, Prefixed([l], r)) == Prefixed(ls + [l], r)
  {
    if r.Some? {
      assert ls + ([l] + r.value.0) == (ls + [l]) + r.value.0;
    }
  }
}
