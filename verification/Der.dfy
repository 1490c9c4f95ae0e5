/** DER integers, and ECDSA signatures from the TPM's format. */
module Der {
  import opened Bytes

  // The source's encoders; None is an exception

  function Even(hex: string): string {
    if |hex| % 2 == 1 then "0" + hex else hex
  }

  function EvenHex(n: nat): string {
    Even(HexOf(n))
  }

  /** `0x80 | k` */
  function WithTopBit(k: nat): nat {
    if k / 0x80 % 2 == 1 then k else k + 0x80
  }

  function DerLen(n: nat): Option<Bytes> {
    if n < 0x80 then Some([n])
    else
      var text := FromHex(EvenHex(n));
      if text.None? || WithTopBit(|text.value|) > 0xFF then None else Some([WithTopBit(|text.value|)] + text.value)
  }

  function DerInt(b: Bytes): Option<Bytes> {
    var text := FromHex(EvenHex(FromBE(b)));
    if text.None? || text.value == [] then None
    else
      var contents := if text.value[0] <= 0x7F then text.value else [0] + text.value;
      var length := DerLen(|contents|);
      if length.None? then None else Some([2] + length.value + contents)
  }

  /** The tag and the total in hexadecimal, then both integers. */
  function SignatureDer(r: Bytes, s: Bytes): Option<Bytes> {
    var derR, derS := DerInt(r), DerInt(s);
    if derR.None? || derS.None? then None
    else
      var body := derR.value + derS.value;
      var header := FromHex("30" + HexOf(|body|));
      if header.None? then None else Some(header.value + body)
  }

  /** Two integers behind the algorithm and the hash, each with its size. */
  function EcdsaDerFromTpm(blob: Bytes): Option<Bytes> {
    var sizeR := ReadBE(blob, 4, 2);
    if sizeR.None? then None
    else
      var r, behind := KeepTo(DropAt(blob, 6), sizeR.value), DropAt(blob, 6 + sizeR.value);
      var sizeS := ReadBE(behind, 0, 2);
      if sizeS.None? then None else SignatureDer(r, KeepTo(DropAt(behind, 2), sizeS.value))
  }

  // A strict decoder, after ITU-T X.690, sections 8.1.3, 8.3, 8.9 and 10.1

  /** The length and how many octets it took: short form below 128, else the fewest octets that hold it. */
  function ReadLength(b: Bytes): (r: Option<(nat, nat)>)
    ensures r.Some? ==> 0 < r.value.1 <= |b|
  {
    if b == [] then None
    else if b[0] < 0x80 then Some((b[0], 1))
    else
      var k := b[0] - 0x80;
      if k == 0 || k == 127 || 1 + k > |b| then None
      else
        var n := FromBE(b[1..1 + k]);
        if b[1] == 0 || n < 0x80 then None else Some((n, 1 + k))
  }

  /** The contents of the element with this tag, and what follows it. */
  function ReadElement(b: Bytes, tag: byte): Option<(Bytes, Bytes)> {
    if b == [] || b[0] != tag then None
    else
      var length := ReadLength(b[1..]);
      if length.None? then None
      else
        var (n, size) := length.value;
        if 1 + size + n > |b| then None else Some((b[1 + size..1 + size + n], b[1 + size + n..]))
  }

  predicate Minimal(c: Bytes) {
    && c != []
    && (|c| > 1 ==> !(c[0] == 0 && c[1] < 0x80) && !(c[0] == 0xFF && c[1] >= 0x80))
  }

  /** The two's complement value of a minimal INTEGER. */
  function ReadInteger(b: Bytes): Option<(int, Bytes)> {
    var e := ReadElement(b, 2);
    if e.None? || !Minimal(e.value.0) then None
    else
      var c := e.value.0;
      Some((FromBE(c) - (if c[0] >= 0x80 then Pow256(|c|) else 0), e.value.1))
  }

  /** RFC 3279, section 2.2.3: a SEQUENCE of two INTEGERs, and nothing behind it. */
  function ReadSignature(b: Bytes): Option<(int, int)> {
    var e := ReadElement(b, 0x30);
    if e.None? || e.value.1 != [] then None
    else
      var r := ReadInteger(e.value.0);
      if r.None? then None
      else
        var s := ReadInteger(r.value.1);
        if s.None? || s.value.1 != [] then None else Some((r.value.0, s.value.0))
  }

  // Hexadecimal numbers as bytes

  /** The fewest bytes, but one for 0. */
  function NumberBytes(n: nat): (b: Bytes)
    ensures b != []
  {
    if n == 0 then [0] else ToBE(n, ByteLength(n))
  }

  lemma OneByte(n: nat)
    requires n < 256
    ensures NumberBytes(n) == [n]
  {
    if n > 0 {
      assert ByteLength(n) == 1 + ByteLength(0);
      assert ToBE(n, 1) == ToBE(0, 0) + [n];
    }
  }

  lemma OneByteHex(n: nat)
    requires n < 256
    ensures EvenHex(n) == [HexDigit(n / 16), HexDigit(n % 16)]
  {
    HexOfLast(n);
    HexOfLast(n / 16);
  }

  lemma {:induction false} EvenHexIsBytes(n: nat)
    ensures EvenHex(n) == ToHex(NumberBytes(n))
  {
    if n < 256 {
      OneByte(n);
      OneByteHex(n);
      assert [n][1..] == [];
    } else {
      var q, x := n / 256, n % 256;
      EvenHexIsBytes(q);
      TwoDigits(n);
      LastByte(n);
      ToHexSnoc(NumberBytes(q), x);
    }
  }

  lemma LastByte(n: nat)
    requires n >= 256
    ensures NumberBytes(n) == NumberBytes(n / 256) + [n % 256]
  {
  }

  lemma TwoDigits(n: nat)
    requires n >= 256
    ensures EvenHex(n) == EvenHex(n / 256) + [HexDigit(n % 256 / 16), HexDigit(n % 256 % 16)]
    ensures |HexOf(n)| == |HexOf(n / 256)| + 2
  {
    var tail := [HexDigit(n % 256 / 16), HexDigit(n % 256 % 16)];
    Nibbles(n);
    HexOfTwo(n, n / 16);
    EvenOfTwo(HexOf(n / 256), tail);
  }

  lemma HexOfTwo(n: nat, q: nat)
    requires q == n / 16 >= 16
    ensures HexOf(n) == HexOf(q / 16) + [HexDigit(q % 16), HexDigit(n % 16)]
  {
    HexOfLast(n);
    HexOfLast(q);
  }

  lemma EvenOfTwo(s: string, tail: string)
    requires |tail| == 2
    ensures Even(s + tail) == Even(s) + tail
  {
    assert "0" + (s + tail) == ("0" + s) + tail;
  }

  lemma Nibbles(n: nat)
    ensures n / 16 / 16 == n / 256 && n / 16 % 16 == n % 256 / 16 && n % 16 == n % 256 % 16
  {
  }

  lemma NumberFromHex(n: nat)
    ensures FromHex(EvenHex(n)) == Some(NumberBytes(n))
  {
    EvenHexIsBytes(n);
    HexRoundTrip(NumberBytes(n));
  }

  lemma NumberBytesValue(n: nat)
    ensures FromBE(NumberBytes(n)) == n
    ensures n > 0 ==> NumberBytes(n)[0] != 0
  {
    if n > 0 {
      BERoundTrip(n, ByteLength(n));
      TopByte(n);
    }
  }

  lemma {:induction false} TopByte(n: nat)
    requires n > 0
    ensures ToBE(n, ByteLength(n))[0] != 0
  {
    if n >= 256 {
      TopByte(n / 256);
    } else {
      assert ByteLength(n) == 1 + ByteLength(0);
      assert ToBE(n, 1) == ToBE(0, 0) + [n];
    }
  }

  // Lengths and integers

  lemma LongFormDecodes(text: Bytes, rest: Bytes)
    requires 1 <= |text| <= 126 && text[0] != 0 && FromBE(text) >= 0x80
    ensures ReadLength([0x80 + |text|] + text + rest) == Some((FromBE(text), 1 + |text|))
  {
    var b := [0x80 + |text|] + text + rest;
    assert b[1..1 + |text|] == text;
    assert b[1] == text[0];
  }

  /** The long form: the number of octets and the octets. */
  lemma LongForm(n: nat)
    requires 0x80 <= n && ByteLength(n) <= 126
    ensures |NumberBytes(n)| == ByteLength(n) > 0
    ensures DerLen(n) == Some([0x80 + |NumberBytes(n)|] + NumberBytes(n))
  {
    var k := |NumberBytes(n)|;
    NumberFromHex(n);
    TopBitOf(k);
  }

  lemma TopBitOf(k: nat)
    requires k <= 126
    ensures WithTopBit(k) == k + 0x80 <= 0xFF
  {
  }

  /** A written length is decoded, whatever follows it, up to the 126 octets the long form has. */
  lemma DerLenDecodes(n: nat, rest: Bytes)
    requires ByteLength(n) <= 126
    ensures DerLen(n).Some?
    ensures ReadLength(DerLen(n).value + rest) == Some((n, |DerLen(n).value|))
  {
    if n >= 0x80 {
      LongForm(n);
      NumberBytesValue(n);
      LongFormDecodes(NumberBytes(n), rest);
    }
  }

  lemma {:induction false} BytesWithin(n: nat, k: nat)
    requires n < Pow256(k)
    ensures ByteLength(n) <= k
  {
    if n > 0 {
      BytesWithin(n / 256, k - 1);
    }
  }

  lemma {:induction false} BytesGrow(m: nat, n: nat)
    requires m <= n
    ensures ByteLength(m) <= ByteLength(n)
  {
    if m > 0 {
      BytesGrow(m / 256, n / 256);
    }
  }

  lemma ElementDecodes(tag: byte, length: Bytes, contents: Bytes, rest: Bytes)
    requires ReadLength(length + (contents + rest)) == Some((|contents|, |length|))
    ensures ReadElement([tag] + length + contents + rest, tag) == Some((contents, rest))
  {
    var b := [tag] + length + contents + rest;
    assert b[1..] == length + (contents + rest);
    assert b[1 + |length|..1 + |length| + |contents|] == contents;
    assert b[1 + |length| + |contents|..] == rest;
  }

  lemma {:induction false} LeadingZero(b: Bytes)
    ensures FromBE([0] + b) == FromBE(b)
  {
    FromBEHead([0] + b);
    assert ([0] + b)[1..] == b;
  }

  function Contents(b: Bytes): Bytes {
    var text := NumberBytes(FromBE(b));
    if text[0] <= 0x7F then text else [0] + text
  }

  lemma ContentsAre(b: Bytes)
    ensures |Contents(b)| <= |b| + 1 && Minimal(Contents(b)) && Contents(b)[0] < 0x80 && FromBE(Contents(b)) == FromBE(b)
  {
    var n := FromBE(b);
    NumberBytesValue(n);
    FromBEBound(b);
    BytesWithin(n, |b|);
    LeadingZero(NumberBytes(n));
  }

  lemma DerIntIs(b: Bytes)
    requires ByteLength(|b| + 1) <= 126
    ensures ByteLength(|Contents(b)|) <= 126 && DerLen(|Contents(b)|).Some?
    ensures DerInt(b) == Some([2] + DerLen(|Contents(b)|).value + Contents(b))
  {
    NumberFromHex(FromBE(b));
    ContentsAre(b);
    BytesGrow(|Contents(b)|, |b| + 1);
    DerLenDecodes(|Contents(b)|, []);
  }

  /**
   * For every byte string, the empty one included, the strict decoder finds a minimal nonnegative INTEGER of the
   * same value and leaves what follows it.
   */
  lemma DerIntDecodes(b: Bytes, rest: Bytes)
    requires ByteLength(|b| + 1) <= 126
    ensures DerInt(b).Some?
    ensures ReadInteger(DerInt(b).value + rest) == Some((FromBE(b), rest))
  {
    DerIntIs(b);
    ContentsAre(b);
    var c := Contents(b);
    IntegerDecodes(c, DerLen(|c|).value, rest, DerInt(b).value);
  }

  lemma IntegerDecodes(c: Bytes, length: Bytes, rest: Bytes, der: Bytes)
    requires Minimal(c) && c[0] < 0x80 && ByteLength(|c|) <= 126 && DerLen(|c|) == Some(length)
    requires der == [2] + length + c
    ensures ReadInteger(der + rest) == Some((FromBE(c), rest))
  {
    DerLenDecodes(|c|, c + rest);
    ElementDecodes(2, length, c, rest);
    assert ReadElement(der + rest, 2) == Some((c, rest));
  }

  // Signatures

  lemma {:induction false} HexOfIsDense(n: nat)
    ensures forall c | c in HexOf(n) :: !IsSpace(c)
  {
    HexOfLast(n);
    HexDigitRoundTrip(n % 16);
    if n >= 16 {
      HexOfIsDense(n / 16);
    }
  }

  lemma {:induction false} OddHexRaises(s: string)
    requires |s| % 2 == 1 && forall c | c in s :: !IsSpace(c)
    ensures FromHex(s).None?
  {
    assert s[0] in s;
    if |s| > 1 {
      OddHexRaises(s[2..]);
    }
  }

  lemma OddHeaderRaises(total: nat)
    requires |HexOf(total)| % 2 == 1
    ensures FromHex("30" + HexOf(total)).None?
  {
    var hex := HexOf(total);
    HexOfIsDense(total);
    assert forall c | c in "30" + hex :: c == '3' || c == '0' || c in hex;
    OddHexRaises("30" + hex);
  }

  /** The tag and the total in one hexadecimal text: an odd number of digits cannot be converted. */
  lemma HeaderIs(total: nat)
    ensures FromHex("30" + HexOf(total)) == if |HexOf(total)| % 2 == 1 then None else Some([0x30] + NumberBytes(total))
  {
    if |HexOf(total)| % 2 == 1 {
      OddHeaderRaises(total);
    } else {
      EvenHexIsBytes(total);
      TagInHex(NumberBytes(total));
      HexRoundTrip([0x30] + NumberBytes(total));
    }
  }

  lemma TagInHex(b: Bytes)
    ensures ToHex([0x30] + b) == "30" + ToHex(b)
  {
    assert ([0x30] + b)[1..] == b && HexDigit(3) == '3' && HexDigit(0) == '0';
  }

  lemma DigitCount(n: nat)
    ensures n < 16 ==> |HexOf(n)| == 1
    ensures 16 <= n < 0x100 ==> |HexOf(n)| == 2
    ensures 0x100 <= n < 0x1000 ==> |HexOf(n)| == 3
    ensures 0x1000 <= n < 0x1_0000 ==> |HexOf(n)| == 4
    ensures 0x1_0000 <= n < 0x10_0000 ==> |HexOf(n)| == 5
  {
    var a, b := n / 16, n / 256;
    HexOfLast(n);
    HexOfLast(a);
    HexOfLast(b);
    HexOfLast(b / 16);
    HexOfLast(b / 256);
    assert a / 16 == b && b / 16 / 16 == b / 256;
  }

  lemma TwoBytes(n: nat)
    requires 0x100 <= n < 0x1_0000
    ensures NumberBytes(n) == [n / 256, n % 256]
  {
    LastByte(n);
    OneByte(n / 256);
  }

  /** A whole element is one whose contents end where the bytes end. */
  predicate Whole(b: Bytes) {
    var e := ReadElement(b, 0x30);
    e.Some? && e.value.1 == []
  }

  lemma AtLeastTopByte(c: Bytes)
    requires |c| > 1
    ensures FromBE(c) >= (c[0] as int) * 256
    ensures |c| > 2 ==> FromBE(c) >= (c[0] as int) * 0x1_0000
  {
    FromBEHead(c);
    var k := |c| - 1;
    assert Pow256(k) == 256 * Pow256(k - 1);
    TimesGrows(c[0], 256, Pow256(k));
    if k > 1 {
      assert Pow256(k - 1) == 256 * Pow256(k - 2);
      TimesGrows(c[0], 0x1_0000, Pow256(k));
    }
  }

  lemma TimesGrows(x: nat, m: nat, n: nat)
    requires m <= n
    ensures x * m <= x * n
  {
  }

  /** One octet of total: a length in short form, or the start of a long form that runs into the body. */
  lemma OneOctetTotal(body: Bytes)
    requires 16 <= |body| < 0x100 && body[0] == 2
    ensures Whole([0x30] + [|body|] + body) <==> |body| < 0x80
    ensures |body| < 0x80 ==> ReadElement([0x30] + [|body|] + body, 0x30) == Some((body, []))
  {
    var total := |body|;
    var b := [0x30] + [total] + body;
    assert b[1..] == [total] + body && b[2..] == body;
    if total >= 0x80 {
      var k := total - 0x80;
      if 1 <= k < 127 {
        assert ([total] + body)[1..1 + k] == body[..k];
        if k == 1 {
          assert body[..1] == [2];
          assert FromBE([2]) == FromBE([2][..0]) * 256 + 2;
        } else {
          AtLeastTopByte(body[..k]);
        }
      }
    } else {
      assert b[2..2 + total] == body && b[2 + total..] == [];
    }
  }

  /** Two octets of total, of which the first is read as a length or as the length of a length. */
  lemma TwoOctetTotal(body: Bytes, hi: byte, lo: byte)
    requires 0x1000 <= |body| < 0x1_0000 && body[0] == 2 && hi == |body| / 256 && lo == |body| % 256
    ensures !Whole([0x30] + [hi, lo] + body)
  {
    var b := [0x30] + [hi, lo] + body;
    var tail := [hi, lo] + body;
    assert b[1..] == tail;
    if hi >= 0x80 {
      var k := hi - 0x80;
      if 1 <= k < 127 && lo != 0 {
        var c := tail[1..1 + k];
        assert c[0] == lo;
        if k == 1 {
          assert c == [lo];
          assert FromBE([lo]) == FromBE([lo][..0]) * 256 + lo;
        } else if k == 2 {
          assert c == [lo, 2];
          assert [lo, 2][..1] == [lo] && FromBE([lo]) == FromBE([lo][..0]) * 256 + lo;
          assert FromBE(c) == lo * 256 + 2;
        } else {
          AtLeastTopByte(c);
        }
      }
    }
  }

  lemma OneOctetHeader(body: Bytes, total: nat)
    requires total == |body| && 16 <= total < 0x100 && body[0] == 2
    ensures FromHex("30" + HexOf(total)) == Some([0x30] + [total])
    ensures total < 0x80 ==> ReadElement([0x30] + [total] + body, 0x30) == Some((body, []))
    ensures total >= 0x80 ==> !Whole([0x30] + [total] + body)
  {
    HeaderIs(total);
    DigitCount(total);
    OneByte(total);
    OneOctetTotal(body);
  }

  lemma TwoOctetHeader(body: Bytes, total: nat)
    requires total == |body| && 0x1000 <= total < 0x1_0000 && body[0] == 2
    ensures FromHex("30" + HexOf(total)) == Some([0x30] + [total / 256, total % 256])
    ensures !Whole([0x30] + [total / 256, total % 256] + body)
  {
    HeaderIs(total);
    DigitCount(total);
    TwoBytes(total);
    TwoOctetTotal(body, total / 256, total % 256);
  }

  lemma OddTotal(total: nat)
    requires total < 16 || 0x100 <= total < 0x1000 || 0x1_0000 <= total < 0x10_0000
    ensures FromHex("30" + HexOf(total)).None?
  {
    DigitCount(total);
    OddHeaderRaises(total);
  }

  /** What the total's text does to a body of two integers. */
  lemma SequenceOf(body: Bytes, total: nat, header: Option<Bytes>)
    requires total == |body| && 6 <= total < 0x10_0000 && body[0] == 2 && header == FromHex("30" + HexOf(total))
    ensures 16 <= total < 0x80 ==> header.Some? && ReadElement(header.value + body, 0x30) == Some((body, []))
    ensures !(16 <= total < 0x80) ==> header.None? || !Whole(header.value + body)
  {
    if 16 <= total < 0x100 {
      OneOctetHeader(body, total);
    } else if 0x1000 <= total < 0x1_0000 {
      TwoOctetHeader(body, total);
    } else {
      OddTotal(total);
    }
  }

  lemma DerIntSize(b: Bytes)
    requires |b| < 0x1_0000
    ensures DerInt(b).Some? && 3 <= |DerInt(b).value| <= |b| + 6 && DerInt(b).value[0] == 2
  {
    BytesWithin(|b| + 1, 3);
    DerIntIs(b);
    ContentsAre(b);
    var n := |Contents(b)|;
    BytesGrow(n, |b| + 1);
    if n >= 0x80 {
      NumberFromHex(n);
    }
  }

  lemma SignatureBody(r: Bytes, s: Bytes)
    requires |r| < 0x1_0000 && |s| < 0x1_0000
    ensures DerInt(r).Some? && DerInt(s).Some?
    ensures ReadInteger(DerInt(r).value + DerInt(s).value) == Some((FromBE(r), DerInt(s).value))
    ensures ReadInteger(DerInt(s).value) == Some((FromBE(s), []))
  {
    BytesWithin(|r| + 1, 3);
    BytesWithin(|s| + 1, 3);
    DerIntDecodes(s, []);
    assert DerInt(s).value + [] == DerInt(s).value;
    DerIntDecodes(r, DerInt(s).value);
  }

  /** A TPMT_SIGNATURE of the ECDSA kind, with something behind it. */
  function TpmSignature(algorithms: Bytes, r: Bytes, s: Bytes, junk: Bytes): Bytes
    requires |r| < 0x1_0000 && |s| < 0x1_0000
  {
    algorithms + (BE2(|r|) + (r + (BE2(|s|) + (s + junk))))
  }

  lemma TpmSignatureParts(algorithms: Bytes, r: Bytes, s: Bytes, junk: Bytes)
    requires |algorithms| == 4 && |r| < 0x1_0000 && |s| < 0x1_0000
    ensures var blob := TpmSignature(algorithms, r, s, junk);
            var behind := DropAt(blob, 6 + |r|);
            && ReadBE(blob, 4, 2) == Some(|r|) && KeepTo(DropAt(blob, 6), |r|) == r
            && ReadBE(behind, 0, 2) == Some(|s|) && KeepTo(DropAt(behind, 2), |s|) == s
  {
    Pow256Values();
    var blob, tail := TpmSignature(algorithms, r, s, junk), BE2(|s|) + (s + junk);
    var rest, o := BE2(|r|) + (r + tail), 6 + |r|;
    assert At(blob, 0, algorithms + rest) by { assert blob[0..|blob|] == blob; }
    AtParts(blob, 0, algorithms, rest);
    AtParts(blob, 4, BE2(|r|), r + tail);
    ReadIsWritten(blob, 4, 2, |r|);
    AtParts(blob, 6, r, tail);
    assert KeepTo(DropAt(blob, 6), |r|) == blob[6..o];
    assert |blob| == o + |tail|;
    assert DropAt(blob, o) == tail by { assert blob[o..] == blob[o..o + |tail|]; }
    TailParts(tail, s, junk);
  }

  lemma TpmSignatureParses(algorithms: Bytes, r: Bytes, s: Bytes, junk: Bytes)
    requires |algorithms| == 4 && |r| < 0x1_0000 && |s| < 0x1_0000
    ensures EcdsaDerFromTpm(TpmSignature(algorithms, r, s, junk)) == SignatureDer(r, s)
  {
    TpmSignatureParts(algorithms, r, s, junk);
  }

  lemma TailParts(tail: Bytes, s: Bytes, junk: Bytes)
    requires |s| < 0x1_0000 && tail == BE2(|s|) + (s + junk)
    ensures ReadBE(tail, 0, 2) == Some(|s|) && KeepTo(DropAt(tail, 2), |s|) == s
  {
    Pow256Values();
    assert At(tail, 0, BE2(|s|) + (s + junk)) by { assert tail[0..|tail|] == tail; }
    AtParts(tail, 0, BE2(|s|), s + junk);
    ReadIsWritten(tail, 0, 2, |s|);
    AtParts(tail, 2, s, junk);
    assert KeepTo(DropAt(tail, 2), |s|) == tail[2..2 + |s|];
  }

  lemma SignatureOf(r: Bytes, s: Bytes, total: nat)
    requires |r| < 0x1_0000 && |s| < 0x1_0000 && DerInt(r).Some? && DerInt(s).Some?
    requires total == |DerInt(r).value| + |DerInt(s).value|
    ensures 16 <= total < 0x80 ==>
              SignatureDer(r, s).Some? && ReadSignature(SignatureDer(r, s).value) == Some((FromBE(r), FromBE(s)))
    ensures !(16 <= total < 0x80) ==> SignatureDer(r, s).None? || ReadSignature(SignatureDer(r, s).value).None?
  {
    DerIntSize(r);
    DerIntSize(s);
    SequenceOf(DerInt(r).value + DerInt(s).value, total, FromHex("30" + HexOf(total)));
    SignatureBody(r, s);
  }

  /**
   * A TPM signature becomes a well-formed Ecdsa-Sig-Value of the same two numbers exactly when its two integers take
   * 16 to 127 octets together; for every other total the conversion raises or is no sequence at all.
   */
  lemma EcdsaDerExactly(algorithms: Bytes, r: Bytes, s: Bytes, junk: Bytes)
    requires |algorithms| == 4 && |r| < 0x1_0000 && |s| < 0x1_0000
    ensures DerInt(r).Some? && DerInt(s).Some?
    ensures var der, total := EcdsaDerFromTpm(TpmSignature(algorithms, r, s, junk)), |DerInt(r).value| + |DerInt(s).value|;
            && (16 <= total < 0x80 ==> der.Some? && ReadSignature(der.value) == Some((FromBE(r), FromBE(s))))
            && (!(16 <= total < 0x80) ==> der.None? || ReadSignature(der.value).None?)
  {
    TpmSignatureParses(algorithms, r, s, junk);
    SignatureBody(r, s);
    SignatureOf(r, s, |DerInt(r).value| + |DerInt(s).value|);
  }
}
