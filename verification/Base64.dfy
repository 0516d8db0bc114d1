/** Base64 as section 4 of RFC 4648 describes it: 24-bit groups, three bytes or four sextets each. */
module Base64 {
  import opened Bytes
  import opened Bits

  const EQUALS: byte := 61

  type sextet = v: int | 0 <= v < 64

  /** The Base64 alphabet (table 1 of RFC 4648): A-Z, a-z, 0-9, +, / as ASCII codes. */
  function Alphabet(i: sextet): byte {
    if i < 26 then i + 65 else if i < 52 then i + 71 else if i < 62 then i - 4 else if i == 62 then 43 else 47
  }

  /** b64decode_code; None is its -1. */
  function Code(ch: byte): Option<sextet> {
    if 97 <= ch <= 122 then Some(26 + ch - 97)
    else if 65 <= ch <= 90 then Some(ch - 65)
    else if 48 <= ch <= 57 then Some(52 + ch - 48)
    else if ch == 43 then Some(62)
    else if ch == 47 then Some(63)
    else None
  }

  /** The alphabet and the code table are inverse to each other, and '=' is in neither. */
  lemma CodeIsInverse(i: sextet, ch: byte)
    ensures Code(Alphabet(i)) == Some(i) && Alphabet(i) != EQUALS
    ensures Code(ch).Some? ==> Alphabet(Code(ch).value) == ch
  {
  }

  const TABLE: string := "ABCDEFGHIJKLMNOPQRSTUVWXYZabcdefghijklmnopqrstuvwxyz0123456789+/"

  /** Character for character, the alphabet is the table. */
  lemma AlphabetIsTable(i: sextet)
    ensures |TABLE| == 64 && Alphabet(i) == TABLE[i] as int
  {
    if i < 26 {
      UpperCase(i);
    } else if i < 52 {
      LowerCase(i - 26);
    } else {
      DigitsAndSigns(i - 52);
    }
  }

  lemma UpperCase(i: nat)
    requires i < 26
    ensures "ABCDEFGHIJKLMNOPQRSTUVWXYZ"[i] as int == i + 65 && TABLE[i] == "ABCDEFGHIJKLMNOPQRSTUVWXYZ"[i]
  {
  }

  lemma LowerCase(i: nat)
    requires i < 26
    ensures "abcdefghijklmnopqrstuvwxyz"[i] as int == i + 97 && TABLE[26 + i] == "abcdefghijklmnopqrstuvwxyz"[i]
  {
  }

  lemma DigitsAndSigns(i: nat)
    requires i < 12
    ensures TABLE[52 + i] as int == if i < 10 then i + 48 else if i == 10 then 43 else 47
  {
  }

  /** The element at i; beyond the end, the zero bits that fill up the last group. */
  function At(x: seq<int>, i: nat): int {
    if i < |x| then x[i] else 0
  }

  // ---------- Encoding ----------

  function JoinBytes(b0: int, b1: int, b2: int): int {
    b0 * 0x1_0000 + b1 * 0x100 + b2
  }

  function SextetOf(g: int, r: nat): sextet
    requires r < 4
  {
    match r
    case 0 => g / 0x4_0000 % 64
    case 1 => g / 0x1000 % 64
    case 2 => g / 64 % 64
    case _ => g % 64
  }

  function ByteGroup(x: seq<byte>, q: nat): int {
    JoinBytes(At(x, 3 * q), At(x, 3 * q + 1), At(x, 3 * q + 2))
  }

  /** The k-th sextet of x. */
  function Sextet(x: seq<byte>, k: nat): sextet {
    SextetOf(ByteGroup(x, k / 4), k % 4)
  }

  /** Sextets that hold a bit of n bytes. */
  function SextetCount(n: nat): nat {
    n / 3 * 4 + if n % 3 == 0 then 0 else n % 3 + 1
  }

  function Sextets(x: seq<byte>): (c: seq<sextet>)
    ensures |c| == SextetCount(|x|)
    ensures forall k | 0 <= k < |c| :: c[k] == Sextet(x, k)
  {
    seq(SextetCount(|x|), k requires 0 <= k => Sextet(x, k))
  }

  function Chars(c: seq<sextet>): (s: seq<byte>)
    ensures |s| == |c|
  {
    seq(|c|, k requires 0 <= k < |c| => Alphabet(c[k]))
  }

  function PadCount(n: nat): nat {
    (3 - n % 3) % 3
  }

  function Encoded(x: seq<byte>): seq<byte> {
    Chars(Sextets(x)) + seq(PadCount(|x|), _ => EQUALS)
  }

  lemma EncodedLength(x: seq<byte>)
    ensures |Encoded(x)| == (|x| + 2) / 3 * 4
  {
  }

  lemma EncodedAt(x: seq<byte>, k: nat)
    requires k < |Encoded(x)|
    ensures Encoded(x)[k] == if k < SextetCount(|x|) then Alphabet(Sextet(x, k)) else EQUALS
  {
  }

  lemma PadAt(x: seq<byte>, k: nat)
    requires k < |Encoded(x)|
    ensures Encoded(x)[k] == 61 <==> k >= SextetCount(|x|)
  {
    EncodedAt(x, k);
  }

  lemma PadNumbers(n: nat)
    ensures SextetCount(n) == (n + 2) / 3 * 4 - if n % 3 == 1 then 2 else if n % 3 == 2 then 1 else 0
  {
    var q, r := n / 3, n % 3;
    assert n == 3 * q + r && SextetCount(n) == 4 * q + if r == 0 then 0 else r + 1;
    DivUnique(n + 2, 3, if r == 0 then q else q + 1, if r == 0 then 2 else r - 1);
  }

  /** The padding: the text ends with two '=' (61) after a single last byte, with one after two bytes,
      with none otherwise, and has no '=' before that. */
  lemma PaddingIsEqualsSigns(x: seq<byte>)
    ensures var t, pads := Encoded(x), if |x| % 3 == 1 then 2 else if |x| % 3 == 2 then 1 else 0;
      pads <= |t| && forall k | 0 <= k < |t| :: t[k] == 61 <==> k >= |t| - pads
  {
    EncodedLength(x);
    PadNumbers(|x|);
    forall k | 0 <= k < |Encoded(x)| ensures Encoded(x)[k] == 61 <==> k >= SextetCount(|x|) {
      PadAt(x, k);
    }
  }

  // ---------- Decoding ----------

  function JoinCodes(c0: int, c1: int, c2: int, c3: int): int {
    c0 * 0x4_0000 + c1 * 0x1000 + c2 * 64 + c3
  }

  function ByteOf(g: int, r: nat): byte
    requires r < 3
  {
    match r
    case 0 => g / 0x1_0000 % 256
    case 1 => g / 0x100 % 256
    case _ => g % 256
  }

  function CodeGroup(c: seq<sextet>, q: nat): int {
    JoinCodes(At(c, 4 * q), At(c, 4 * q + 1), At(c, 4 * q + 2), At(c, 4 * q + 3))
  }

  function DecodedByte(c: seq<sextet>, j: nat): byte {
    ByteOf(CodeGroup(c, j / 3), j % 3)
  }

  /** Bytes written for m codes: the whole bytes that 6m bits hold, and one more that is not
      backed by eight bits when there is no code at all or one code is left over. */
  function DecodedCount(m: nat): nat {
    6 * m / 8 + if m == 0 || m % 4 == 1 then 1 else 0
  }

  function DecodedCodes(c: seq<sextet>): (x: seq<byte>)
    ensures |x| == DecodedCount(|c|)
    ensures forall j | 0 <= j < |x| :: x[j] == DecodedByte(c, j)
  {
    seq(DecodedCount(|c|), j requires 0 <= j => DecodedByte(c, j))
  }

  /** The codes of a text: bytes outside the alphabet are skipped, '=' ends it. */
  function TextCodes(s: seq<byte>): (c: seq<sextet>)
    ensures |c| <= |s|
  {
    if s == [] || s[0] == EQUALS then [] else OneCode(s[0]) + TextCodes(s[1..])
  }

  function OneCode(ch: byte): (c: seq<sextet>)
    ensures |c| <= 1
  {
    match Code(ch) case None => [] case Some(v) => [v]
  }

  function Decoded(s: seq<byte>): seq<byte> {
    DecodedCodes(TextCodes(s))
  }

  /** Decoding never outgrows its input, so it can be done in place with one byte for the NUL. */
  lemma DecodedFits(s: seq<byte>)
    requires s != []
    ensures |Decoded(s)| <= |s|
  {
  }

  // ---------- Round trip ----------

  /** The text without the bytes that are neither in the alphabet nor '='. */
  function Denoised(s: seq<byte>): seq<byte> {
    if s == [] then []
    else (if s[0] == EQUALS || Code(s[0]).Some? then [s[0]] else []) + Denoised(s[1..])
  }

  lemma {:induction false} NoiseIsSkipped(s: seq<byte>)
    ensures TextCodes(Denoised(s)) == TextCodes(s)
  {
    if s != [] {
      NoiseIsSkipped(s[1..]);
      var head := if s[0] == EQUALS || Code(s[0]).Some? then [s[0]] else [];
      if head == [] {
        assert Denoised(s) == Denoised(s[1..]);
        assert TextCodes(s) == TextCodes(s[1..]);
      } else {
        assert Denoised(s)[1..] == Denoised(s[1..]);
      }
    }
  }

  /** The first '=' (61) ends the text, whatever follows. */
  lemma {:induction false} EqualsSignEnds(s: seq<byte>, rest: seq<byte>)
    requires 61 !in s
    ensures TextCodes(s + [61] + rest) == TextCodes(s)
  {
    var t := s + [61] + rest;
    if s == [] {
      assert t[0] == 61;
    } else {
      assert t[0] == s[0] && t[1..] == s[1..] + [61] + rest;
      EqualsSignEnds(s[1..], rest);
    }
  }

  lemma {:induction false} CodesOfChars(c: seq<sextet>, rest: seq<byte>)
    ensures TextCodes(Chars(c) + rest) == c + TextCodes(rest)
  {
    if c == [] {
      assert Chars(c) + rest == rest;
      assert c + TextCodes(rest) == TextCodes(rest);
    } else {
      var left := Chars(c[1..]) + rest;
      CodesOfChars(c[1..], rest);
      assert Chars(c) + rest == [Alphabet(c[0])] + left;
      OneMoreChar(c[0], left);
      Regroup([c[0]], c[1..], TextCodes(rest));
      assert [c[0]] + c[1..] == c;
    }
  }

  lemma OneMoreChar(v: sextet, left: seq<byte>)
    ensures TextCodes([Alphabet(v)] + left) == [v] + TextCodes(left)
  {
    CodeIsInverse(v, 0);
    assert ([Alphabet(v)] + left)[1..] == left;
  }

  /** The sextets of three bytes, and back. */
  lemma SextetsOfBytes(b0: byte, b1: byte, b2: byte)
    ensures var g := JoinBytes(b0, b1, b2);
      && SextetOf(g, 0) == b0 / 4
      && SextetOf(g, 1) == b0 % 4 * 16 + b1 / 16
      && SextetOf(g, 2) == b1 % 16 * 4 + b2 / 64
      && SextetOf(g, 3) == b2 % 64
  {
    SextetsOfBits(b0 / 4, b0 % 4, b1 / 16, b1 % 16, b2 / 64, b2 % 64);
  }

  /** The bits of three bytes, taken apart where the sextets end. */
  lemma SextetsOfBits(h0: nat, l0: nat, h1: nat, l1: nat, h2: nat, l2: nat)
    requires h0 < 64 && l0 < 4 && h1 < 16 && l1 < 16 && h2 < 4 && l2 < 64
    ensures var g := JoinBytes(h0 * 4 + l0, h1 * 16 + l1, h2 * 64 + l2);
      && SextetOf(g, 0) == h0
      && SextetOf(g, 1) == l0 * 16 + h1
      && SextetOf(g, 2) == l1 * 4 + h2
      && SextetOf(g, 3) == l2
  {
    var g := JoinBytes(h0 * 4 + l0, h1 * 16 + l1, h2 * 64 + l2);
    var s1, s2 := l0 * 16 + h1, l1 * 4 + h2;
    DivUnique(g, 64, h0 * 0x1000 + s1 * 64 + s2, l2);
    DivUnique(h0 * 0x1000 + s1 * 64 + s2, 64, h0 * 64 + s1, s2);
    DivUnique(g, 0x1000, h0 * 64 + s1, s2 * 64 + l2);
    DivUnique(h0 * 64 + s1, 64, h0, s1);
    DivUnique(g, 0x4_0000, h0, s1 * 0x1000 + s2 * 64 + l2);
  }

  lemma BytesOfJoined(b0: byte, b1: byte, b2: byte)
    ensures var g := JoinBytes(b0, b1, b2); ByteOf(g, 0) == b0 && ByteOf(g, 1) == b1 && ByteOf(g, 2) == b2
  {
    var g, h0: int, h1: int := JoinBytes(b0, b1, b2), b0, b1;
    DivUnique(g, 0x1_0000, b0, h1 * 0x100 + b2);
    DivUnique(g, 0x100, h0 * 0x100 + b1, b2);
    DivUnique(h0 * 0x100 + b1, 0x100, b0, b1);
  }

  /** Also beyond the last sextet of a text the sextets of its groups are those of the codes:
      both are zero there. */
  lemma SextetsAt(x: seq<byte>, q: nat, r: nat)
    requires 3 * q < |x| && r < 4
    ensures At(Sextets(x), 4 * q + r) == SextetOf(ByteGroup(x, q), r)
  {
    assert (4 * q + r) / 4 == q && (4 * q + r) % 4 == r;
    if 4 * q + r >= SextetCount(|x|) {
      MissingSextetsAreZero(x, q, r);
    }
  }

  lemma ZeroSextet(b0: byte, b1: byte, b2: byte, r: nat)
    requires (r == 3 && b2 == 0) || (r == 2 && b1 == b2 == 0)
    ensures SextetOf(JoinBytes(b0, b1, b2), r) == 0
  {
    if r == 3 {
      SextetsOfBits(b0 / 4, b0 % 4, b1 / 16, b1 % 16, 0, 0);
    } else {
      SextetsOfBits(b0 / 4, b0 % 4, 0, 0, 0, 0);
    }
  }

  /** n bytes that do not reach sextet r of group q end in that group, before byte r. */
  lemma ShortGroup(n: nat, q: nat, r: nat)
    requires 3 * q < n && r < 4 && SextetCount(n) <= 4 * q + r
    ensures n < 3 * q + r && n < 3 * q + 3
  {
    var Q, R := n / 3, n % 3;
    assert n == 3 * Q + R && R < 3;
    assert SextetCount(n) == 4 * Q + if R == 0 then 0 else R + 1;
  }

  lemma MissingSextetsAreZero(x: seq<byte>, q: nat, r: nat)
    requires 3 * q < |x| && r < 4 && SextetCount(|x|) <= 4 * q + r
    ensures SextetOf(ByteGroup(x, q), r) == 0
  {
    ShortGroup(|x|, q, r);
    ZeroSextet(At(x, 3 * q), At(x, 3 * q + 1), At(x, 3 * q + 2), r);
  }

  lemma GroupRoundTrip(b0: byte, b1: byte, b2: byte)
    ensures var g := JoinBytes(b0, b1, b2);
      JoinCodes(SextetOf(g, 0), SextetOf(g, 1), SextetOf(g, 2), SextetOf(g, 3)) == g
  {
    SextetsOfBytes(b0, b1, b2);
  }

  /** Codes that are the sextets of a group of bytes form the same group. */
  lemma SameGroup(c: seq<sextet>, x: seq<byte>, q: nat)
    requires forall r: nat | r < 4 :: At(c, 4 * q + r) == SextetOf(ByteGroup(x, q), r)
    ensures CodeGroup(c, q) == ByteGroup(x, q)
  {
    var g := ByteGroup(x, q);
    assert At(c, 4 * q + 0) == SextetOf(g, 0) && At(c, 4 * q + 1) == SextetOf(g, 1);
    assert At(c, 4 * q + 2) == SextetOf(g, 2) && At(c, 4 * q + 3) == SextetOf(g, 3);
    GroupRoundTrip(At(x, 3 * q), At(x, 3 * q + 1), At(x, 3 * q + 2));
  }

  lemma GroupsMatch(x: seq<byte>, q: nat)
    requires 3 * q < |x|
    ensures CodeGroup(Sextets(x), q) == ByteGroup(x, q)
  {
    forall r: nat | r < 4 ensures At(Sextets(x), 4 * q + r) == SextetOf(ByteGroup(x, q), r) {
      SextetsAt(x, q, r);
    }
    SameGroup(Sextets(x), x, q);
  }

  lemma ByteInGroup(x: seq<byte>, q: nat, r: nat)
    requires r < 3 && 3 * q + r < |x|
    ensures ByteOf(ByteGroup(x, q), r) == x[3 * q + r]
  {
    BytesOfJoined(At(x, 3 * q), At(x, 3 * q + 1), At(x, 3 * q + 2));
  }

  lemma ByteRoundTrip(x: seq<byte>, j: nat)
    requires j < |x|
    ensures DecodedByte(Sextets(x), j) == x[j]
  {
    GroupsMatch(x, j / 3);
    ByteInGroup(x, j / 3, j % 3);
  }

  lemma CountsMatch(n: nat)
    ensures DecodedCount(SextetCount(n)) == if n == 0 then 1 else n
  {
    var q, r := n / 3, n % 3;
    assert SextetCount(n) == 4 * q + if r == 0 then 0 else r + 1;
  }

  lemma NonEmptyRoundTrip(x: seq<byte>, s: seq<byte>)
    requires Denoised(s) == Encoded(x) && x != []
    ensures Decoded(s) == x
  {
    CodesOfText(x, s);
    CountsMatch(|x|);
    forall j | 0 <= j < |x| ensures Decoded(s)[j] == x[j] {
      ByteRoundTrip(x, j);
    }
  }

  lemma ByteOfZero(g: int, r: nat)
    requires g == 0 && r < 3
    ensures ByteOf(g, r) == 0
  {
  }

  lemma GroupOfNone(c: seq<sextet>, q: nat)
    requires c == []
    ensures CodeGroup(c, q) == 0
  {
  }

  lemma NoBits(c: seq<sextet>, j: nat)
    requires c == []
    ensures DecodedByte(c, j) == 0
  {
    GroupOfNone(c, j / 3);
    ByteOfZero(CodeGroup(c, j / 3), j % 3);
  }

  lemma NoCodesDecode(c: seq<sextet>)
    requires c == []
    ensures DecodedCodes(c) == [0]
  {
    forall j | 0 <= j < |DecodedCodes(c)| ensures DecodedCodes(c)[j] == 0 {
      NoBits(c, j);
    }
  }

  lemma EmptyRoundTrip(x: seq<byte>, s: seq<byte>)
    requires Denoised(s) == Encoded(x) && x == []
    ensures Decoded(s) == [0]
  {
    CodesOfText(x, s);
    NoCodesDecode(TextCodes(s));
  }

  /** Decoding an encoding, with any bytes outside the alphabet and '=' strewn in, gives the
      original bytes back; the empty string is the one exception: without a code, one zero byte
      comes out. */
  lemma RoundTrip(x: seq<byte>, s: seq<byte>)
    requires Denoised(s) == Encoded(x)
    ensures Decoded(s) == x <==> x != []
    ensures x == [] ==> Decoded(s) == [0]
  {
    if x == [] {
      EmptyRoundTrip(x, s);
    } else {
      NonEmptyRoundTrip(x, s);
    }
  }

  lemma CodesOfText(x: seq<byte>, s: seq<byte>)
    requires Denoised(s) == Encoded(x)
    ensures TextCodes(s) == Sextets(x)
  {
    NoiseIsSkipped(s);
    var pads := seq(PadCount(|x|), _ => EQUALS);
    CodesOfChars(Sextets(x), pads);
    assert TextCodes(pads) == [];
    PlusEmpty(Sextets(x));
  }
}
