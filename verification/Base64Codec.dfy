/** The codec's loops: one input byte at a time, carrying the leftover bits in ch. */
module Base64Codec {
  import opened Bytes
  import opened Bits
  import opened Base64

  /** The first n bytes of out are those of t. */
  ghost predicate Agree(out: array<byte>, t: seq<byte>, n: nat)
    reads out
  {
    n <= out.Length && n <= |t| && forall k | 0 <= k < n :: out[k] == t[k]
  }

  /** ch | bits, where bits has at most k bits and ch has none that low. */
  method Combine(ch: byte, bits: byte, k: nat) returns (v: nat)
    requires (k == 2 && ch % 4 == 0 && bits < 4) || (k == 4 && ch % 16 == 0 && bits < 16) ||
             (k == 6 && ch % 64 == 0 && bits < 64)
    ensures v == ch + bits
  {
    assert Pow2(2) == 4 && Pow2(4) == 16 && Pow2(6) == 64;
    v := OrBelow(ch, bits, k);
  }

  // ---------- b64encode ----------

  /** The four characters that group q of x gives the text t. */
  ghost predicate CharsOfGroup(x: seq<byte>, t: seq<byte>, q: nat)
    requires 3 * q < |x|
  {
    && 4 * q + 4 <= |t|
    && t[4 * q] == Alphabet(x[3 * q] / 4)
    && t[4 * q + 1] == Alphabet(x[3 * q] % 4 * 16 + At(x, 3 * q + 1) / 16)
    && t[4 * q + 2] == (if 3 * q + 1 < |x| then Alphabet(x[3 * q + 1] % 16 * 4 + At(x, 3 * q + 2) / 64) else EQUALS)
    && t[4 * q + 3] == (if 3 * q + 2 < |x| then Alphabet(x[3 * q + 2] % 64) else EQUALS)
  }

  ghost predicate TextOf(x: seq<byte>, t: seq<byte>) {
    && |t| == (|x| + 2) / 3 * 4
    && forall q: nat | 3 * q < |x| :: CharsOfGroup(x, t, q)
  }

  /** Character r of group q: a sextet that holds a bit of x, or padding. */
  function CharOf(x: seq<byte>, q: nat, r: nat): byte
    requires r < 4 && 3 * q < |x|
  {
    if r <= |x| - 3 * q then Alphabet(SextetOf(ByteGroup(x, q), r)) else EQUALS
  }

  lemma SextetsReach(n: nat, q: nat, r: nat)
    requires r < 4 && 3 * q < n
    ensures 4 * q + r < SextetCount(n) <==> r <= n - 3 * q
    ensures 4 * q + 4 <= (n + 2) / 3 * 4
  {
    var Q, R := n / 3, n % 3;
    assert n == 3 * Q + R && R < 3;
    assert SextetCount(n) == 4 * Q + if R == 0 then 0 else R + 1;
  }

  lemma SextetIn(x: seq<byte>, q: nat, r: nat, k: nat)
    requires r < 4 && k == 4 * q + r
    ensures Sextet(x, k) == SextetOf(ByteGroup(x, q), r)
  {
    DivUnique(k, 4, q, r);
  }

  lemma EncodedChar(x: seq<byte>, q: nat, r: nat)
    requires r < 4 && 3 * q < |x|
    ensures 4 * q + 4 <= |Encoded(x)| && Encoded(x)[4 * q + r] == CharOf(x, q, r)
  {
    var k := 4 * q + r;
    SextetsReach(|x|, q, r);
    EncodedLength(x);
    EncodedAt(x, k);
    SextetIn(x, q, r, k);
  }

  lemma CharsOfFour(x: seq<byte>, t: seq<byte>, q: nat)
    requires 3 * q < |x| && 4 * q + 4 <= |t| && forall r: nat | r < 4 :: t[4 * q + r] == CharOf(x, q, r)
    ensures CharsOfGroup(x, t, q)
  {
    assert t[4 * q + 0] == CharOf(x, q, 0) && t[4 * q + 1] == CharOf(x, q, 1);
    assert t[4 * q + 2] == CharOf(x, q, 2) && t[4 * q + 3] == CharOf(x, q, 3);
    SextetsOfBytes(At(x, 3 * q), At(x, 3 * q + 1), At(x, 3 * q + 2));
  }

  /** The RFC's definition, group by group. */
  lemma EncodedGroup(x: seq<byte>, q: nat)
    requires 3 * q < |x|
    ensures CharsOfGroup(x, Encoded(x), q)
  {
    forall r: nat | r < 4 ensures 4 * q + 4 <= |Encoded(x)| && Encoded(x)[4 * q + r] == CharOf(x, q, r) {
      EncodedChar(x, q, r);
    }
    EncodedChar(x, q, 0);
    CharsOfFour(x, Encoded(x), q);
  }

  lemma EncodedIsTextOf(x: seq<byte>)
    ensures TextOf(x, Encoded(x))
  {
    EncodedLength(x);
    forall q: nat | 3 * q < |x| ensures CharsOfGroup(x, Encoded(x), q) {
      EncodedGroup(x, q);
    }
  }

  /** The RFC's text of one, two and three bytes, character by character. */
  ghost predicate FewChars(x: seq<byte>, t: seq<byte>)
    requires 1 <= |x| <= 3
  {
    if |x| == 1 then t == [Alphabet(x[0] / 4), Alphabet(x[0] % 4 * 16), 61, 61]
    else if |x| == 2 then
      t == [Alphabet(x[0] / 4), Alphabet(x[0] % 4 * 16 + x[1] / 16), Alphabet(x[1] % 16 * 4), 61]
    else t == [Alphabet(x[0] / 4), Alphabet(x[0] % 4 * 16 + x[1] / 16), Alphabet(x[1] % 16 * 4 + x[2] / 64),
               Alphabet(x[2] % 64)]
  }

  lemma FewCharsOfGroup(x: seq<byte>, t: seq<byte>)
    requires 1 <= |x| <= 3 && |t| == 4 && CharsOfGroup(x, t, 0)
    ensures FewChars(x, t)
  {
  }

  lemma EncodedFew(x: seq<byte>)
    requires 1 <= |x| <= 3
    ensures FewChars(x, Encoded(x))
  {
    EncodedLength(x);
    EncodedGroup(x, 0);
    FewCharsOfGroup(x, Encoded(x));
  }

  lemma SameChar(x: seq<byte>, y: seq<byte>, q: nat, r: nat)
    requires |x| == 3 && r < 4 && 3 * q < |y|
    ensures CharOf(x + y, q + 1, r) == CharOf(y, q, r)
  {
    assert ByteGroup(x + y, q + 1) == ByteGroup(y, q);
  }

  lemma EncodedFront(x: seq<byte>, y: seq<byte>, k: nat)
    requires |x| == 3 && k < 4
    ensures |Encoded(x)| == 4 <= |Encoded(x + y)| && Encoded(x + y)[k] == Encoded(x)[k]
  {
    EncodedLength(x);
    EncodedChar(x + y, 0, k);
    EncodedChar(x, 0, k);
    assert ByteGroup(x + y, 0) == ByteGroup(x, 0);
  }

  lemma EncodedBack(x: seq<byte>, y: seq<byte>, q: nat, r: nat)
    requires |x| == 3 && r < 4 && 3 * q < |y|
    ensures 4 * q + 4 <= |Encoded(y)| && 4 * q + 8 <= |Encoded(x + y)|
    ensures Encoded(x + y)[4 * (q + 1) + r] == Encoded(y)[4 * q + r]
  {
    EncodedChar(x + y, q + 1, r);
    EncodedChar(y, q, r);
    SameChar(x, y, q, r);
  }

  lemma TextsAppend(x: seq<byte>, y: seq<byte>)
    requires |x| == 3
    ensures |Encoded(x)| == 4 && |Encoded(x + y)| == 4 + |Encoded(y)|
    ensures forall k: nat | k < |Encoded(y)| :: 3 * (k / 4) < |y|
  {
    EncodedLength(x);
    EncodedLength(y);
    EncodedLength(x + y);
    DivUnique(3 + |y| + 2, 3, (|y| + 2) / 3 + 1, (|y| + 2) % 3);
  }

  /** Texts are encoded three bytes at a time. With the texts of up to three bytes this leaves no
      choice about any text. */
  lemma EncodedAppends(x: seq<byte>, y: seq<byte>)
    requires |x| == 3
    ensures Encoded(x + y) == Encoded(x) + Encoded(y)
  {
    TextsAppend(x, y);
    forall k | 0 <= k < 4 ensures Encoded(x + y)[k] == Encoded(x)[k] {
      EncodedFront(x, y, k);
    }
    forall k: nat | k < |Encoded(y)| ensures Encoded(x + y)[4 + k] == Encoded(y)[k] {
      EncodedBack(x, y, k / 4, k % 4);
    }
    Pieces(Encoded(x), Encoded(y), Encoded(x + y));
  }

  /** The leftover bits before byte r of group q. */
  ghost predicate Carries(x: seq<byte>, q: nat, r: nat, ch: sextet)
    requires r < 3 && 3 * q + r <= |x|
  {
    match r
    case 1 => ch == x[3 * q] % 4 * 16
    case 2 => ch == x[3 * q + 1] % 16 * 4
    case _ => true
  }

  /** The switch on i % 3 for byte r of group q; t is the text to come. */
  method EncodeByte(b: byte, i: nat, ghost q: nat, r: nat, ghost x: seq<byte>, ghost t: seq<byte>,
                    output: array<byte>, start: nat, chBefore: sextet)
      returns (optr: nat, ch: sextet, pad: nat)
    requires r < 3 && i == 3 * q + r < |x| && b == x[i] && CharsOfGroup(x, t, q) && Carries(x, q, r, chBefore)
    requires start == 4 * q + r && |t| < output.Length && Agree(output, t, start)
    modifies output
    ensures optr == start + (if r == 2 then 2 else 1) && pad == 2 - r
    ensures r < 2 ==> Carries(x, q, r + 1, ch)
    ensures Agree(output, t, optr)
    ensures forall k | optr <= k < output.Length :: output[k] == old(output[k])
  {
    ch := chBefore;
    match r {
      case 0 =>
        optr := Put(output, start, Alphabet(b / 4), t);
        ch := b % 4 * 16;
        pad := 2;
      case 1 =>
        var v := Combine(ch, b / 16, 4);
        optr := Put(output, start, Alphabet(v), t);
        ch := b % 16 * 4;
        pad := 1;
      case _ =>
        var v := Combine(ch, b / 64, 2);
        optr := Put(output, start, Alphabet(v), t);
        optr := Put(output, optr, Alphabet(b % 64), t);
        pad := 0;
    }
  }

  /** *optr++ = v, where v is the next byte of t. */
  method Put(output: array<byte>, start: nat, v: byte, ghost t: seq<byte>) returns (optr: nat)
    requires start < |t| && start < output.Length && Agree(output, t, start) && v == t[start]
    modifies output
    ensures optr == start + 1 && Agree(output, t, optr)
    ensures forall k | 0 <= k < output.Length && k != start :: output[k] == old(output[k])
  {
    output[start] := v;
    optr := start + 1;
  }

  /** The loop over the input; q and r say where in a group it ends. */
  method EncodeLoop(input: array<byte>, inlen: nat, output: array<byte>, ghost t: seq<byte>)
      returns (optr: nat, ch: sextet, pad: nat, ghost q: nat, ghost r: nat)
    requires inlen <= input.Length && input != output
    requires TextOf(input[..inlen], t) && |t| < output.Length
    modifies output
    ensures r < 3 && inlen == 3 * q + r && optr == 4 * q + r && pad == if r == 0 then 0 else 3 - r
    ensures Carries(input[..inlen], q, r, ch)
    ensures Agree(output, t, optr)
    ensures forall k | optr <= k < output.Length :: output[k] == old(output[k])
  {
    ghost var x := input[..inlen];
    optr, ch, pad, q, r := 0, 0, 0, 0, 0;
    for i := 0 to inlen
      invariant input[..inlen] == x
      invariant r < 3 && i == 3 * q + r && optr == 4 * q + r && pad == if r == 0 then 0 else 3 - r
      invariant Carries(x, q, r, ch)
      invariant Agree(output, t, optr)
      invariant forall k | optr <= k < output.Length :: output[k] == old(output[k])
    {
      assert CharsOfGroup(x, t, q);
      DivUnique(i, 3, q, r);
      optr, ch, pad := EncodeByte(input[i], i, q, i % 3, x, t, output, optr, ch);
      if i % 3 == 2 {
        q, r := q + 1, 0;
      } else {
        r := r + 1;
      }
    }
  }

  lemma TextLength(x: seq<byte>, t: seq<byte>, q: nat, r: nat)
    requires TextOf(x, t) && r < 3 && |x| == 3 * q + r
    ensures |t| == 4 * q + if r == 0 then 0 else 4
    ensures r != 0 ==> CharsOfGroup(x, t, q)
  {
    DivUnique(|x| + 2, 3, if r == 0 then q else q + 1, if r == 0 then 2 else r - 1);
  }

  /** The loops of b64encode; t is the text to come. */
  method EncodeAll(input: array<byte>, inlen: nat, output: array<byte>, ghost t: seq<byte>) returns (optr: nat)
    requires inlen <= input.Length && input != output
    requires TextOf(input[..inlen], t) && |t| < output.Length
    modifies output
    ensures optr == |t| && Agree(output, t, optr)
    ensures forall k | optr <= k < output.Length :: output[k] == old(output[k])
  {
    ghost var x := input[..inlen];
    ghost var q, r;
    var ch, pad;
    optr, ch, pad, q, r := EncodeLoop(input, inlen, output, t);
    assert input[..inlen] == x;
    TextLength(x, t, q, r);
    if pad > 0 {
      output[optr] := Alphabet(ch);
      optr := optr + 1;
    }
    assert forall k | optr <= k < |t| :: t[k] == EQUALS;
    while pad > 0
      invariant 0 <= pad && optr + pad == |t|
      invariant forall k | optr <= k < |t| :: t[k] == EQUALS
      invariant Agree(output, t, optr)
      invariant forall k | optr <= k < output.Length :: output[k] == old(output[k])
    {
      pad := pad - 1;
      output[optr] := EQUALS;
      optr := optr + 1;
    }
  }

  /** b64encode into a buffer with room for the text and its NUL. A null buffer is left alone; for
      an empty input only the NUL is written, and outlen keeps its value. */
  method Encode(input: array<byte>, inlen: int, output: array?<byte>, outlenBefore: int) returns (outlen: int)
    requires inlen <= input.Length && input != output
    requires output != null ==> 0 < output.Length && (0 < inlen ==> |Encoded(input[..inlen])| < output.Length)
    modifies if output == null then {} else {output}
    ensures output == null || inlen <= 0 ==> outlen == outlenBefore
    ensures output != null && inlen <= 0 ==> output[0] == 0 && output[1..] == old(output[1..])
    ensures output != null && 0 < inlen ==>
      && 0 <= outlen < output.Length
      && output[..outlen] == Encoded(input[..inlen])
      && output[outlen] == 0
      && output[outlen + 1..] == old(output[outlen + 1..])
  {
    outlen := outlenBefore;
    if output == null {
      return;
    }
    if inlen <= 0 {
      output[0] := 0;
      return;
    }
    EncodedIsTextOf(input[..inlen]);
    outlen := EncodeAll(input, inlen, output, Encoded(input[..inlen]));
    assert output[..outlen] == Encoded(input[..inlen]);
    output[outlen] := 0;
  }

  // ---------- b64decode ----------

  /** Bytes written after r codes of a group. */
  function WrittenOf(r: nat): nat {
    if r == 0 then 0 else r - 1
  }

  /** The bytes that group q of the codes c gives the decoding d. */
  ghost predicate BytesOfCodes(c: seq<sextet>, d: seq<byte>, q: nat)
    requires 4 * q <= |c|
  {
    && (4 * q + 1 <= |c| ==> 3 * q + 1 <= |d| && d[3 * q] == c[4 * q] as int * 4 + At(c, 4 * q + 1) / 16)
    && (4 * q + 3 <= |c| ==> 3 * q + 2 <= |d| && d[3 * q + 1] == c[4 * q + 1] as int % 16 * 16 + c[4 * q + 2] / 4)
    && (4 * q + 4 <= |c| ==> 3 * q + 3 <= |d| && d[3 * q + 2] == c[4 * q + 2] as int % 4 * 64 + c[4 * q + 3])
  }

  /** The loop flushes once more: no code was seen, or one is left over. */
  predicate Flushes(q: nat, r: nat) {
    (q == 0 && r == 0) || r == 1
  }

  ghost predicate BytesOf(c: seq<sextet>, d: seq<byte>) {
    && (forall q: nat | 4 * q <= |c| :: BytesOfCodes(c, d, q))
    && |d| == CountOf(|c| / 4, |c| % 4)
    && (c == [] ==> d[0] == 0)
  }

  function CountOf(q: nat, r: nat): nat {
    3 * q + WrittenOf(r) + if Flushes(q, r) then 1 else 0
  }

  /** The bytes of four codes. */
  lemma BytesOfGroup(c0: sextet, c1: sextet, c2: sextet, c3: sextet)
    ensures var g := JoinCodes(c0, c1, c2, c3);
      && ByteOf(g, 0) == c0 * 4 + c1 / 16
      && ByteOf(g, 1) == c1 % 16 * 16 + c2 / 4
      && ByteOf(g, 2) == c2 % 4 * 64 + c3
  {
    BytesOfBits(c0, c1 / 16, c1 % 16, c2 / 4, c2 % 4, c3);
  }

  lemma BytesOfBits(c0: nat, h1: nat, l1: nat, h2: nat, l2: nat, c3: nat)
    requires c0 < 64 && h1 < 4 && l1 < 16 && h2 < 16 && l2 < 4 && c3 < 64
    ensures var g := JoinCodes(c0, h1 * 16 + l1, h2 * 4 + l2, c3);
      && ByteOf(g, 0) == c0 * 4 + h1
      && ByteOf(g, 1) == l1 * 16 + h2
      && ByteOf(g, 2) == l2 * 64 + c3
  {
    var g := JoinCodes(c0, h1 * 16 + l1, h2 * 4 + l2, c3);
    var b0, b1, b2 := c0 * 4 + h1, l1 * 16 + h2, l2 * 64 + c3;
    DivUnique(g, 0x1_0000, b0, b1 * 0x100 + b2);
    DivUnique(g, 0x100, b0 * 0x100 + b1, b2);
    DivUnique(b0 * 0x100 + b1, 0x100, b0, b1);
  }

  lemma DecodedCountOf(q: nat, r: nat)
    requires r < 4
    ensures DecodedCount(4 * q + r) == CountOf(q, r)
  {
    DivUnique(4 * q + r, 4, q, r);
    DivUnique(6 * (4 * q + r), 8, 3 * q + WrittenOf(r), if r == 0 then 0 else 8 - 2 * r);
  }

  lemma DecodedAt(c: seq<sextet>, q: nat, r: nat)
    requires r < 3 && 3 * q + r < DecodedCount(|c|)
    ensures DecodedCodes(c)[3 * q + r] == ByteOf(CodeGroup(c, q), r)
  {
    DivUnique(3 * q + r, 3, q, r);
  }

  lemma BytesReach(m: nat, q: nat)
    ensures 4 * q + 1 <= m ==> 3 * q + 1 <= DecodedCount(m)
    ensures 4 * q + 3 <= m ==> 3 * q + 2 <= DecodedCount(m)
    ensures 4 * q + 4 <= m ==> 3 * q + 3 <= DecodedCount(m)
  {
    DecodedCountOf(m / 4, m % 4);
  }

  lemma BytesOfThree(c: seq<sextet>, d: seq<byte>, q: nat)
    requires 4 * q <= |c| && |d| == DecodedCount(|c|)
    requires forall r: nat | r < 3 && 3 * q + r < |d| :: d[3 * q + r] == ByteOf(CodeGroup(c, q), r)
    ensures BytesOfCodes(c, d, q)
  {
    BytesReach(|c|, q);
    BytesOfGroup(At(c, 4 * q), At(c, 4 * q + 1), At(c, 4 * q + 2), At(c, 4 * q + 3));
    assert 4 * q + 1 <= |c| ==> d[3 * q + 0] == ByteOf(CodeGroup(c, q), 0);
    assert 4 * q + 3 <= |c| ==> d[3 * q + 1] == ByteOf(CodeGroup(c, q), 1);
    assert 4 * q + 4 <= |c| ==> d[3 * q + 2] == ByteOf(CodeGroup(c, q), 2);
  }

  /** The definition by groups of four codes, group by group. */
  lemma DecodedGroup(c: seq<sextet>, q: nat)
    requires 4 * q <= |c|
    ensures BytesOfCodes(c, DecodedCodes(c), q)
  {
    forall r: nat | r < 3 && 3 * q + r < DecodedCount(|c|)
      ensures DecodedCodes(c)[3 * q + r] == ByteOf(CodeGroup(c, q), r)
    {
      DecodedAt(c, q, r);
    }
    BytesOfThree(c, DecodedCodes(c), q);
  }

  lemma DecodedLength(c: seq<sextet>)
    ensures |DecodedCodes(c)| == CountOf(|c| / 4, |c| % 4)
  {
    DecodedCountOf(|c| / 4, |c| % 4);
  }

  lemma DecodedIsBytesOf(c: seq<sextet>)
    ensures BytesOf(c, DecodedCodes(c))
  {
    forall q: nat | 4 * q <= |c| ensures BytesOfCodes(c, DecodedCodes(c), q) {
      DecodedGroup(c, q);
    }
    DecodedLength(c);
    if c == [] {
      NoCodesDecode(c);
    }
  }

  /** What one to four codes decode to. A single code leaves a byte of six bits. */
  lemma DecodedFew(c: seq<sextet>)
    requires 1 <= |c| <= 4
    ensures |c| == 1 ==> DecodedCodes(c) == [c[0] as int * 4]
    ensures |c| == 2 ==> DecodedCodes(c) == [c[0] as int * 4 + c[1] / 16]
    ensures |c| == 3 ==> DecodedCodes(c) == [c[0] as int * 4 + c[1] / 16, c[1] as int % 16 * 16 + c[2] / 4]
    ensures |c| == 4 ==>
      DecodedCodes(c) == [c[0] as int * 4 + c[1] / 16, c[1] as int % 16 * 16 + c[2] / 4, c[2] as int % 4 * 64 + c[3]]
  {
    DecodedGroup(c, 0);
    DecodedLength(c);
  }

  lemma SameDecodedByte(c: seq<sextet>, i: nat, d: seq<sextet>, j: nat)
    requires i % 3 == j % 3 && CodeGroup(c, i / 3) == CodeGroup(d, j / 3)
    ensures DecodedByte(c, i) == DecodedByte(d, j)
  {
  }

  lemma SameCodeGroup(c: seq<sextet>, d: seq<sextet>, q: nat)
    requires |c| == 4
    ensures CodeGroup(c + d, 0) == CodeGroup(c, 0) && CodeGroup(c + d, q + 1) == CodeGroup(d, q)
  {
  }

  lemma ThreeOn(k: nat)
    ensures (k + 3) / 3 == k / 3 + 1 && (k + 3) % 3 == k % 3
  {
  }

  lemma DecodedAppendsAt(c: seq<sextet>, d: seq<sextet>, k: nat)
    requires |c| == 4
    ensures k < 3 ==> DecodedByte(c + d, k) == DecodedByte(c, k)
    ensures DecodedByte(c + d, k + 3) == DecodedByte(d, k)
  {
    SameCodeGroup(c, d, k / 3);
    ThreeOn(k);
    SameDecodedByte(c + d, k + 3, d, k);
    if k < 3 {
      SameDecodedByte(c + d, k, c, k);
    }
  }

  lemma CountAppends(m: nat)
    requires m > 0
    ensures DecodedCount(4 + m) == 3 + DecodedCount(m)
  {
    DecodedCountOf(m / 4, m % 4);
    DecodedCountOf(m / 4 + 1, m % 4);
  }

  lemma LengthsAppend(c: seq<sextet>, d: seq<sextet>)
    requires |c| == 4 && d != []
    ensures |DecodedCodes(c)| == 3 && |DecodedCodes(c + d)| == 3 + |DecodedCodes(d)|
  {
    CountAppends(|d|);
    assert DecodedCount(4) == 3;
  }

  lemma DecodedFront(c: seq<sextet>, d: seq<sextet>, k: nat)
    requires |c| == 4 && d != [] && k < 3
    ensures |DecodedCodes(c)| == 3 <= |DecodedCodes(c + d)| && DecodedCodes(c + d)[k] == DecodedCodes(c)[k]
  {
    LengthsAppend(c, d);
    DecodedAppendsAt(c, d, k);
  }

  lemma DecodedBack(c: seq<sextet>, d: seq<sextet>, k: nat)
    requires |c| == 4 && d != [] && k < |DecodedCodes(d)|
    ensures 3 + k < |DecodedCodes(c + d)| && DecodedCodes(c + d)[3 + k] == DecodedCodes(d)[k]
  {
    LengthsAppend(c, d);
    DecodedAppendsAt(c, d, k);
  }

  /** Four codes at a time. With DecodedFew, and a zero byte for no code at all, this leaves no choice
      about any codes. */
  lemma DecodedAppends(c: seq<sextet>, d: seq<sextet>)
    requires |c| == 4 && d != []
    ensures DecodedCodes(c + d) == DecodedCodes(c) + DecodedCodes(d)
  {
    var x, y, z := DecodedCodes(c), DecodedCodes(d), DecodedCodes(c + d);
    LengthsAppend(c, d);
    forall k | 0 <= k < 3 ensures z[k] == x[k] {
      DecodedFront(c, d, k);
    }
    forall k | 0 <= k < |y| ensures z[3 + k] == y[k] {
      DecodedBack(c, d, k);
    }
    Pieces(x, y, z);
  }

  lemma Pieces(x: seq<byte>, y: seq<byte>, z: seq<byte>)
    requires |z| == |x| + |y|
    requires forall k | 0 <= k < |x| :: z[k] == x[k]
    requires forall k | 0 <= k < |y| :: z[|x| + k] == y[k]
    ensures z == x + y
  {
    forall k | |x| <= k < |z| ensures z[k] == y[k - |x|] {
      assert z[|x| + (k - |x|)] == y[k - |x|];
    }
  }

  /** The leftover bits after r codes of group q. */
  ghost predicate Holds(c: seq<sextet>, q: nat, r: nat, ch: byte)
    requires r < 4 && 4 * q + r <= |c|
  {
    match r
    case 0 => ch == 0
    case 1 => ch == c[4 * q] as int * 4
    case 2 => ch == c[4 * q + 1] as int % 16 * 16
    case _ => ch == c[4 * q + 2] as int % 4 * 64
  }

  /** The switch on coff & 3 for code r of group q; c are all the codes of the text, and d is the
      decoding to come. q1 and r1 are the place of the next code. */
  method DecodeCode(code: sextet, coff: nat, ghost q: nat, ghost r: nat, ghost c: seq<sextet>, ghost d: seq<byte>,
                    output: array<byte>, start: nat, chBefore: byte)
      returns (optr: nat, ch: byte, flush: nat, ghost q1: nat, ghost r1: nat)
    requires r < 4 && coff == 4 * q + r < |c| && code == c[coff] && BytesOfCodes(c, d, q) && Holds(c, q, r, chBefore)
    requires start == 3 * q + WrittenOf(r) && |d| < output.Length && Agree(output, d, start)
    modifies output
    ensures r1 < 4 && coff + 1 == 4 * q1 + r1 && optr == 3 * q1 + WrittenOf(r1) && Holds(c, q1, r1, ch)
    ensures flush == if Flushes(q1, r1) then 1 else 0
    ensures Agree(output, d, optr)
    ensures forall k | start < k < output.Length :: output[k] == old(output[k])
    ensures forall k | optr <= k < output.Length :: output[k] == old(output[k])
  {
    optr, ch, q1, r1 := start, chBefore, q, r + 1;
    var bits: int := code;
    DivUnique(coff, 4, q, r);
    match coff % 4 {
      case 0 =>
        ch := bits * 4;
        flush := 1;
      case 1 =>
        var v := Combine(ch, bits / 16, 2);
        optr := Put(output, start, v, d);
        ch := bits % 16 * 16;
        flush := 0;
      case 2 =>
        var v := Combine(ch, bits / 4, 4);
        optr := Put(output, start, v, d);
        ch := bits % 4 * 64;
        flush := 0;
      case _ =>
        var v := Combine(ch, bits, 6);
        optr := Put(output, start, v, d);
        flush, ch := 0, 0;
        q1, r1 := q + 1, 0;
    }
  }

  /** places[i] is the number of codes in s before i, up to where the text of s ends. */
  ghost predicate ArePlaces(s: seq<byte>, c: seq<sextet>, places: seq<nat>) {
    && 0 < |places| <= |s| + 1 && places[0] == 0 && places[|places| - 1] == |c|
    && (|places| == |s| + 1 || s[|places| - 1] == EQUALS)
    && forall i | 0 <= i < |places| - 1 :: PlaceStep(s, c, places, i)
  }

  ghost predicate PlaceStep(s: seq<byte>, c: seq<sextet>, places: seq<nat>, i: nat)
    requires i + 1 < |places| <= |s| + 1
  {
    && s[i] != EQUALS
    && (Code(s[i]).None? ==> places[i + 1] == places[i])
    && (Code(s[i]).Some? ==> places[i + 1] == places[i] + 1 && places[i] < |c| && c[places[i]] == Code(s[i]).value)
  }

  lemma {:induction false} PlacesOf(s: seq<byte>) returns (places: seq<nat>)
    ensures ArePlaces(s, TextCodes(s), places)
  {
    if s == [] || s[0] == EQUALS {
      places := [0];
    } else {
      var rest := PlacesOf(s[1..]);
      var one := OneCode(s[0]);
      places := [0] + seq(|rest|, i requires 0 <= i < |rest| => rest[i] + |one|);
      assert TextCodes(s) == one + TextCodes(s[1..]);
      forall i | 0 <= i < |places| - 1 ensures PlaceStep(s, TextCodes(s), places, i) {
        if i > 0 {
          assert PlaceStep(s[1..], TextCodes(s[1..]), rest, i - 1);
        }
      }
    }
  }

  /** The loop over the input. The write position never passes the read position, so input may be
      output. */
  method DecodeLoop(input: array<byte>, inlen: nat, output: array<byte>, ghost c: seq<sextet>, ghost d: seq<byte>,
                    ghost places: seq<nat>)
      returns (optr: nat, ch: byte, flush: nat, ghost q: nat, ghost r: nat)
    requires 0 < inlen <= input.Length && ArePlaces(input[..inlen], c, places)
    requires BytesOf(c, d) && |d| < output.Length
    modifies output
    ensures r < 4 && |c| == 4 * q + r && optr == 3 * q + WrittenOf(r) && Holds(c, q, r, ch)
    ensures flush == if Flushes(q, r) then 1 else 0
    ensures Agree(output, d, optr)
    ensures forall k | optr <= k < output.Length :: output[k] == old(output[k])
  {
    ghost var s := input[..inlen];
    var coff, i: nat := 0, 0;
    optr, ch, flush, q, r := 0, 0, 1, 0, 0;
    while i < inlen
      invariant i < |places| && coff == places[i] && coff <= i && coff <= |c|
      invariant forall k | i <= k < inlen :: input[k] == s[k]
      invariant r < 4 && coff == 4 * q + r && optr == 3 * q + WrittenOf(r) && Holds(c, q, r, ch)
      invariant flush == if Flushes(q, r) then 1 else 0
      invariant Agree(output, d, optr)
      invariant forall k | optr <= k < output.Length :: output[k] == old(output[k])
      decreases inlen - i
    {
      if input[i] == EQUALS {
        break;
      }
      assert PlaceStep(s, c, places, i);
      var code := Code(input[i]);
      if code.Some? {
        assert BytesOfCodes(c, d, q);
        optr, ch, flush, q, r := DecodeCode(code.value, coff, q, r, c, d, output, optr, ch);
        coff := coff + 1;
      }
      i := i + 1;
    }
    assert i < |places| - 1 ==> PlaceStep(s, c, places, i);
  }

  /** The loop of b64decode and its flush; c are all the codes of the text, and d is the decoding
      to come. */
  method DecodeAll(input: array<byte>, inlen: nat, output: array<byte>, ghost c: seq<sextet>, ghost d: seq<byte>)
      returns (optr: nat)
    requires 0 < inlen <= input.Length && c == TextCodes(input[..inlen])
    requires BytesOf(c, d) && |d| < output.Length
    modifies output
    ensures optr == |d| && Agree(output, d, optr)
    ensures forall k | optr <= k < output.Length :: output[k] == old(output[k])
  {
    ghost var places := PlacesOf(input[..inlen]);
    ghost var q, r;
    var ch, flush;
    optr, ch, flush, q, r := DecodeLoop(input, inlen, output, c, d, places);
    DivUnique(|c|, 4, q, r);
    assert BytesOfCodes(c, d, q);
    if flush != 0 {
      output[optr] := ch;
      optr := optr + 1;
    }
  }

  /** b64decode. The output may be the input buffer itself: text, length and everything behind the
      NUL are as with separate buffers, and the NUL lands no later than index inlen. */
  method Decode(input: array<byte>, inlen: int, output: array?<byte>, outlenBefore: int) returns (outlen: int)
    requires inlen <= input.Length
    requires output != null ==> 0 < output.Length && (0 < inlen ==> |Decoded(input[..inlen])| < output.Length)
    modifies if output == null then {} else {output}
    ensures output == null || inlen <= 0 ==> outlen == outlenBefore
    ensures output != null && inlen <= 0 ==> output[0] == 0 && output[1..] == old(output[1..])
    ensures output != null && 0 < inlen ==>
      && 0 <= outlen < output.Length && outlen <= inlen
      && output[..outlen] == Decoded(old(input[..inlen]))
      && output[outlen] == 0
      && output[outlen + 1..] == old(output[outlen + 1..])
  {
    outlen := outlenBefore;
    if output == null {
      return;
    }
    if inlen <= 0 {
      output[0] := 0;
      return;
    }
    ghost var c := TextCodes(input[..inlen]);
    DecodedFits(input[..inlen]);
    DecodedIsBytesOf(c);
    outlen := DecodeAll(input, inlen, output, c, DecodedCodes(c));
    assert output[..outlen] == DecodedCodes(c);
    output[outlen] := 0;
  }

  /** In place, a buffer that has room for the input and a NUL is always large enough. The length is
      set if and only if the input is not empty: for an empty line it keeps what it held before the
      call, which its caller goes on to use. */
  method DecodeInPlace(buf: array<byte>, len: nat, outlenBefore: int) returns (outlen: int)
    requires len < buf.Length
    modifies buf
    ensures len == 0 ==> outlen == outlenBefore && buf[0] == 0 && buf[1..] == old(buf[1..])
    ensures 0 < len ==>
      && 0 <= outlen <= len
      && buf[..outlen] == Decoded(old(buf[..len])) && buf[outlen] == 0
      && buf[outlen + 1..] == old(buf[outlen + 1..])
  {
    if 0 < len {
      DecodedFits(buf[..len]);
    }
    outlen := Decode(buf, len, buf, outlenBefore);
  }
}
